/** From a packet's port to the tunnel that owns it: getstartport and LookupTunnel_v4 of packet.c. */
module TunnelLookup {
  import opened Arith
  import opened Tunnels
  import opened Keys
  import opened AddrPool
  import opened PoolScan
  import opened PoolRuns
  import opened TunnelStore

  const START_PORT := 1024

  /** getstartport: the subtraction is on int and the division rounds towards zero. */
  function GetStartPort(port: UInt16, range: nat): UInt16
    requires range > 0
  {
    Wrap16Int(TruncDiv(port - START_PORT, range) * range + START_PORT)
  }

  function Wrap16Int(x: int): UInt16 {
    x % 0x1_0000
  }

  /** start begins a block of the pool's layout. */
  predicate Aligned(start: UInt16, range: nat)
    requires range > 0
  {
    START_PORT <= start && (start - START_PORT) % range == 0
  }

  function RoundDown(x: nat, d: nat): (y: nat)
    requires d > 0
  {
    x / d * d
  }

  lemma RoundDownIs(x: nat, d: nat, y: nat)
    requires d > 0 && y % d == 0
    ensures RoundDown(x, d) == y <==> y <= x < y + d
    ensures RoundDown(x, d) <= x
  {
    DivMod(x, d);
    DivMod(y, d);
    if y <= x < y + d {
      DivUnique(x, d, y / d);
    }
  }

  lemma StartPortRounds(port: UInt16, range: nat)
    requires range > 0
    ensures port >= START_PORT
            ==> GetStartPort(port, range) == Wrap16Int(START_PORT + RoundDown(port - START_PORT, range))
    ensures port < START_PORT
            ==> GetStartPort(port, range) == Wrap16Int(START_PORT - RoundDown(START_PORT - port, range))
  {
    if port < START_PORT {
      var x: nat := START_PORT - port;
      assert TruncDiv(port - START_PORT, range) == 0 - x / range;
      assert (0 - x / range) * range == 0 - x / range * range;
    }
  }

  /** A port is mapped to the start of a block exactly when the block contains it, but the ports just
      below 1024 are mapped to the first block too. */
  lemma StartPortOwner(port: UInt16, range: nat, start: UInt16)
    requires range > 0 && Aligned(start, range)
    ensures GetStartPort(port, range) == start <==>
              start <= port < start + range || (start == START_PORT && START_PORT - range < port < START_PORT)
  {
    hide RoundDown, GetStartPort;
    StartPortRounds(port, range);
    if port >= START_PORT {
      RoundDownIs(port - START_PORT, range, start - START_PORT);
      RoundDownIs(port - START_PORT, range, 0);
    } else {
      RoundDownIs(START_PORT - port, range, 0);
    }
  }

  /** The start ports that the pool gives are aligned. */
  lemma PoolAligned(b: nat, r: nat)
    requires Range(r) && Place(b, r) && Usable(b, r) && (r == 1 ==> b < SLOTS - 1)
    ensures Aligned(StartOf(b), 1024 * r)
  {
    DivMod(b, r);
    BoundaryCheck(b, r);
    if r > 1 {
      BelowTop(b, r);
    }
    assert 1024 * b == b / r * (1024 * r) by {
      Regroup(b / r, r);
    }
    DivUnique(1024 * b, 1024 * r, b / r);
  }

  lemma Regroup(q: nat, r: nat)
    ensures 1024 * (q * r) == q * (1024 * r)
  {
  }

  ghost predicate LeasesAligned(r4: Records, range: nat)
    requires range > 0
  {
    forall k :: k in r4 ==> Aligned(r4[k].startPort, range)
  }

  ghost predicate Owns(t: Tunnel, ip: UInt32, port: UInt16, range: nat) {
    t.extIP == ip && t.startPort <= port < t.startPort + range
  }

  /** The lookup on the way down to a client: for ports from 1024 on it finds the tunnel whose block
      has the port, and no other. */
  method FindOwner(s: Storage, ip: UInt32, port: UInt16, range: nat) returns (t: Tunnel?)
    requires s.Valid() && Paired(s.R4(), s.R6()) && range > 0 && LeasesAligned(s.R4(), range)
    ensures t != null ==> t in s.R4().Values
    ensures port >= START_PORT && t != null ==> Owns(t, ip, port, range)
    ensures port >= START_PORT ==> forall u :: u in s.R4().Values && Owns(u, ip, port, range) ==> u == t
  {
    hide BPlusTree.BPTree.Valid, RecordsOf, GetStartPort;
    var start := GetStartPort(port, range);
    t := s.FindV4(KeyV4(ip, start));
    OwnerFound(s.R4(), s.R6(), ip, port, range, t);
  }

  lemma OwnerFound(r4: Records, r6: Records, ip: UInt32, port: UInt16, range: nat, t: Tunnel?)
    requires Paired(r4, r6) && range > 0 && LeasesAligned(r4, range)
    requires var k := KeyV4(ip, GetStartPort(port, range)); t == if k in r4 then r4[k] else null
    ensures port >= START_PORT && t != null ==> Owns(t, ip, port, range)
    ensures port >= START_PORT ==> forall u :: u in r4.Values && Owns(u, ip, port, range) ==> u == t
  {
    hide KeyV4, GetStartPort;
    var start := GetStartPort(port, range);
    if t != null {
      var k := KeyV4(ip, start);
      assert Known4(r4, r6, k);
      KeyV4Injective(ip, start, t.extIP, t.startPort);
      StartPortOwner(port, range, t.startPort);
    }
    forall u | u in r4.Values && Owns(u, ip, port, range) && port >= START_PORT ensures u == t {
      var k :| k in r4 && r4[k] == u;
      assert Known4(r4, r6, k);
      StartPortOwner(port, range, u.startPort);
    }
  }
}
