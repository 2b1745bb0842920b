/** Tunnel records, shared by the two indexes that point at them. */
module Tunnels {
  type UInt16 = x: nat | x < 0x1_0000
  type UInt32 = x: nat | x < 0x1_0000_0000
  type UInt64 = x: nat | x < 0x1_0000_0000_0000_0000

  /** A client's IPv6 address is the number its 16 bytes spell. */
  class Tunnel {
    const startPort: UInt16
    const endPort: UInt16
    const extIP: UInt32
    const client: nat
    var liveTime: UInt64

    constructor (startPort: UInt16, endPort: UInt16, extIP: UInt32, client: nat, liveTime: UInt64)
      ensures this.startPort == startPort && this.endPort == endPort
      ensures this.extIP == extIP && this.client == client && this.liveTime == liveTime
    {
      this.startPort, this.endPort, this.extIP, this.client := startPort, endPort, extIP, client;
      this.liveTime := liveTime;
    }
  }
}
