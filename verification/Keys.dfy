/** Keys of the two tunnel indexes as bplus.c compares them: fixed-length byte strings in memcmp
    order, which is the order of the numbers they spell. */
module Keys {
  type Byte = x: nat | x < 256

  /** The sign of memcmp on two strings of the same length. */
  function Memcmp(a: seq<Byte>, b: seq<Byte>): int
    requires |a| == |b|
  {
    if a == [] then 0
    else if a[0] != b[0] then a[0] - b[0]
    else Memcmp(a[1..], b[1..])
  }

  function Pow256(n: nat): (r: nat)
    ensures r >= 1
  {
    if n == 0 then 1 else 256 * Pow256(n - 1)
  }

  function Value(a: seq<Byte>): nat {
    if a == [] then 0 else a[0] * Pow256(|a| - 1) + Value(a[1..])
  }

  lemma LeadingDigit(x: nat, y: nat, p: nat, u: nat, v: nat)
    requires u < p && v < p
    ensures x < y ==> x * p + u < y * p + v
  {
    if x < y {
      var d: nat := y - x - 1;
      var dp: nat := d * p;
      calc {
        y * p;
        (x + 1 + d) * p;
        x * p + p + d * p;
      }
    }
  }

  lemma {:induction false} ValueBound(a: seq<Byte>)
    ensures Value(a) < Pow256(|a|)
  {
    if a != [] {
      var p := Pow256(|a| - 1);
      ValueBound(a[1..]);
      LeadingDigit(a[0], 256, p, Value(a[1..]), 0);
    }
  }

  /** memcmp decides by the first bytes that differ. */
  lemma {:induction false} MemcmpFirst(a: seq<Byte>, b: seq<Byte>, i: nat)
    requires |a| == |b| && i < |a| && a[..i] == b[..i] && a[i] != b[i]
    ensures Memcmp(a, b) == a[i] as int - b[i] as int
  {
    if i > 0 {
      assert a[0] == a[..i][0] && b[0] == b[..i][0];
      assert a[1..][..i - 1] == a[..i][1..] && b[1..][..i - 1] == b[..i][1..];
      MemcmpFirst(a[1..], b[1..], i - 1);
    }
  }

  /** memcmp orders keys of one length as numbers, and calls two of them equal only when they are. */
  lemma {:induction false} MemcmpIsNumeric(a: seq<Byte>, b: seq<Byte>)
    requires |a| == |b|
    ensures Memcmp(a, b) < 0 <==> Value(a) < Value(b)
    ensures Memcmp(a, b) == 0 <==> Value(a) == Value(b)
    ensures Memcmp(a, b) == 0 <==> a == b
  {
    if a != [] {
      var p, u, v := Pow256(|a| - 1), Value(a[1..]), Value(b[1..]);
      ValueBound(a[1..]);
      ValueBound(b[1..]);
      LeadingDigit(a[0], b[0], p, u, v);
      LeadingDigit(b[0], a[0], p, v, u);
      if a[0] == b[0] {
        MemcmpIsNumeric(a[1..], b[1..]);
        assert a == [a[0]] + a[1..] && b == [b[0]] + b[1..];
      }
    }
  }

  /** The bytes of an unsigned integer in host order, least significant first. */
  function HostBytes(x: nat, n: nat): (b: seq<Byte>)
    ensures |b| == n
  {
    if n == 0 then [] else [x % 256] + HostBytes(x / 256, n - 1)
  }

  lemma {:induction false} HostBytesInjective(x: nat, y: nat, n: nat)
    requires x < Pow256(n) && y < Pow256(n) && HostBytes(x, n) == HostBytes(y, n)
    ensures x == y
  {
    if n > 0 {
      assert HostBytes(x, n)[0] == HostBytes(y, n)[0];
      assert HostBytes(x, n)[1..] == HostBytes(x / 256, n - 1) && HostBytes(y, n)[1..] == HostBytes(y / 256, n - 1);
      HostBytesInjective(x / 256, y / 256, n - 1);
    }
  }

  /** KEY_V4, packed: the public address and the start port. */
  function KeyV4(extIP: nat, port: nat): nat {
    Value(HostBytes(extIP, 4) + HostBytes(port, 2))
  }

  /** The low byte of the address counts most, and the high byte of the port least. */
  lemma KeyV4Bytes(ip: nat, port: nat)
    ensures HostBytes(ip, 4) + HostBytes(port, 2) ==
            [ip % 256, ip / 256 % 256, ip / 256 / 256 % 256, ip / 256 / 256 / 256 % 256, port % 256, port / 256 % 256]
  {
    assert HostBytes(port, 1) == [port % 256] && HostBytes(port / 256, 1) == [port / 256 % 256];
    var a, b := ip / 256, ip / 256 / 256;
    assert HostBytes(b / 256, 1) == [b / 256 % 256];
    assert HostBytes(b, 2) == [b % 256] + HostBytes(b / 256, 1);
    assert HostBytes(a, 3) == [a % 256] + HostBytes(b, 2);
  }

  lemma KeyV4Injective(ip: nat, port: nat, ip': nat, port': nat)
    requires ip < 0x1_0000_0000 && ip' < 0x1_0000_0000 && port < 0x1_0000 && port' < 0x1_0000
    requires KeyV4(ip, port) == KeyV4(ip', port')
    ensures ip == ip' && port == port'
  {
    var a, b := HostBytes(ip, 4) + HostBytes(port, 2), HostBytes(ip', 4) + HostBytes(port', 2);
    MemcmpIsNumeric(a, b);
    assert a[..4] == HostBytes(ip, 4) && b[..4] == HostBytes(ip', 4);
    assert a[4..] == HostBytes(port, 2) && b[4..] == HostBytes(port', 2);
    assert Pow256(2) == 0x1_0000 && Pow256(4) == 0x1_0000_0000 by {
      assert Pow256(1) == 256 && Pow256(2) == 256 * Pow256(1) && Pow256(3) == 256 * Pow256(2);
    }
    HostBytesInjective(ip, ip', 4);
    HostBytesInjective(port, port', 2);
  }
}
