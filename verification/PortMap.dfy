/** The 64-bit port maps of portmap.c: eight bytes, the first bit of a byte being its highest. */
module PortMap {
  function Mask(bit: nat): bv8 {
    match bit % 8
    case 0 => 0x80
    case 1 => 0x40
    case 2 => 0x20
    case 3 => 0x10
    case 4 => 0x08
    case 5 => 0x04
    case 6 => 0x02
    case _ => 0x01
  }

  lemma MaskIs(bit: nat)
    ensures Mask(bit) == 0x80 >> (bit % 8)
  {
    var b := bit % 8;
    assert (0x80 as bv8) >> 0 == 0x80 && (0x80 as bv8) >> 1 == 0x40 && (0x80 as bv8) >> 2 == 0x20;
    assert (0x80 as bv8) >> 3 == 0x10 && (0x80 as bv8) >> 4 == 0x08 && (0x80 as bv8) >> 5 == 0x04;
    assert (0x80 as bv8) >> 6 == 0x02 && (0x80 as bv8) >> 7 == 0x01;
    assert b == 0 || b == 1 || b == 2 || b == 3 || b == 4 || b == 5 || b == 6 || b == 7;
  }

  predicate Lit(x: bv8, bit: nat) {
    x & Mask(bit) != 0
  }

  function Put(x: bv8, bit: nat, value: int): bv8 {
    if value == 1 then x | Mask(bit) else x & !Mask(bit)
  }

  predicate Bit(map8: seq<bv8>, bit: nat)
    requires |map8| == 8 && bit < 64
  {
    Lit(map8[bit / 8], bit)
  }

  ghost function Used(map8: seq<bv8>): set<nat>
    requires |map8| == 8
  {
    set bit | 0 <= bit < 64 && Bit(map8, bit)
  }

  predicate Within(x: nat, a: nat, b: int) {
    a <= x < b
  }

  /** The bits from a to b - 1 that a map has. */
  ghost function Span(a: nat, b: int): set<nat> {
    set x | 0 <= x < 64 && Within(x, a, b)
  }

  lemma LitPut(x: bv8, i: nat, j: nat, value: int)
    ensures Lit(Put(x, i, value), j) <==> if i % 8 == j % 8 then value == 1 else Lit(x, j)
  {
  }

  lemma OneBit(i: nat, j: nat)
    ensures i / 8 == j / 8 && i % 8 == j % 8 ==> i == j
  {
  }

  lemma UsedPut(map8: seq<bv8>, bit: nat, value: int)
    requires |map8| == 8 && bit < 64
    ensures Used(map8[bit / 8 := Put(map8[bit / 8], bit, value)]) == if value == 1 then Used(map8) + {bit}
            else Used(map8) - {bit}
  {
    hide Lit, Put;
    var after := map8[bit / 8 := Put(map8[bit / 8], bit, value)];
    forall j | 0 <= j < 64 ensures Bit(after, j) <==> if j == bit then value == 1 else Bit(map8, j) {
      LitPut(map8[bit / 8], bit, j, value);
      OneBit(bit, j);
    }
  }

  /** bitmap_get: not 0 for a used bit, and -1 for a bit no map has. */
  method BitmapGet(bitmap: array<bv8>, bit: nat) returns (v: int)
    requires bitmap.Length == 8
    ensures bit >= 64 ==> v == -1
    ensures bit < 64 ==> (v != 0 <==> bit in Used(bitmap[..]))
  {
    var n := bit / 8;
    if n > 7 {
      return -1;
    }
    return (bitmap[n] & Mask(bit)) as int;
  }

  /** bitmap_set: a bit no map has is left alone. */
  method BitmapSet(bitmap: array<bv8>, bit: nat, value: int) returns (ret: int)
    requires bitmap.Length == 8 && (value == 0 || value == 1)
    modifies bitmap
    ensures ret == if bit < 64 then 0 else -1
    ensures Used(bitmap[..]) == if value == 1 then old(Used(bitmap[..])) + Span(bit, bit + 1)
                                else old(Used(bitmap[..])) - Span(bit, bit + 1)
  {
    hide Mask, Used;
    ghost var was := bitmap[..];
    var n := bit / 8;
    if n > 7 {
      return -1;
    }
    if value == 1 {
      bitmap[n] := bitmap[n] | Mask(bit);
    } else {
      bitmap[n] := bitmap[n] & !Mask(bit);
    }
    assert bitmap[..] == was[n := Put(was[n], bit, value)];
    UsedPut(was, bit, value);
    assert Span(bit, bit + 1) == {bit};
    return 0;
  }

  /** portrange_test: 1 exactly when every bit of the range is there and free. */
  method RangeTest(bitmap: array<bv8>, start: nat, end: int) returns (r: int)
    requires bitmap.Length == 8
    ensures r == if (end < start || end < 64) && Span(start, end + 1) !! Used(bitmap[..]) then 1 else 0
  {
    var i := start;
    while i <= end
      invariant start <= i && (i <= end + 1 || i == start)
      invariant i <= 64 || i == start
      invariant Span(start, i) !! Used(bitmap[..])
    {
      var v := BitmapGet(bitmap, i);
      if v != 0 {
        assert i < 64 ==> i in Span(start, end + 1);
        return 0;
      }
      i := i + 1;
    }
    return 1;
  }

  /** portrange_set. */
  method RangeSet(bitmap: array<bv8>, start: nat, end: int, value: int)
    requires bitmap.Length == 8 && (value == 0 || value == 1)
    modifies bitmap
    ensures Used(bitmap[..]) == if value == 1 then old(Used(bitmap[..])) + Span(start, end + 1)
                                else old(Used(bitmap[..])) - Span(start, end + 1)
  {
    var i := start;
    while i <= end
      invariant start <= i && (i <= end + 1 || i == start)
      invariant Used(bitmap[..]) == if value == 1 then old(Used(bitmap[..])) + Span(start, i)
                                    else old(Used(bitmap[..])) - Span(start, i)
    {
      var ret := BitmapSet(bitmap, i, value);
      assert Span(start, i + 1) == Span(start, i) + Span(i, i + 1);
      i := i + 1;
    }
    assert Span(start, i) == Span(start, end + 1);
  }
}
