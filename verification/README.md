# Lightweight 4over6: a verified model

This project models the hard parts of a lightweight 4over6 system and proves them with Dafny. The
system has a concentrator, whose kernel module keeps the tunnels and whose user-space server leases
blocks of ports to clients, and a customer-side translator that sends IPv4 over IPv6 to it.

## What is modelled

- **The B+ tree of tunnels** (`BPlusTree`, `BPlusChain`, `BPlusSplit`, `BPlusMerge`, `BPlusInsert`,
  `BPlusDelete`, `BPlusLookup`, `LinkRing`, `Keys`). Nodes, values and the tree are heap objects that
  the methods relink in place, with parent pointers, a doubly linked chain of values and the recursive split and
  merge. Each node carries as ghost state its height and the key just below its subtree; the invariant
  says that every link key is exactly the maximum of its subtree, that all leaves are at one depth,
  that every node has its 4 to 8 links, and that leaves and chain are exactly the indexed values in
  key order. While an insert or a delete walks through the tree, a "seam" names the one boundary that
  is out of step. `LinkRing` has the circular lists of links with their surgery, proved to come to the
  slices of links that the tree's operations assign.
- **The store of two such trees** (`TunnelStore`, `TunnelExpiry`, `TunnelLookup`): create and delete
  over both indexes, the traversal whose callback deletes what it stands on, expiry and teardown, and
  the way from a port to the owning tunnel.
- **The pool of port blocks** (`PortMap`, `PoolScan`, `PoolOrder`, `AddrPool`, `PoolRuns`): bitmaps, the ring of
  addresses with their cursors, the search that always starts at the first address, as a function on
  values that the search in place refines, and what every run of allocations and releases keeps.
- **The lease protocol** (`Leases`, `LeaseLookup`): detect, allocate, create, delete, recycle, expire and deliver as
  steps of a state machine over the pool, the two kernel indexes, the requests in progress and the
  notices under way. A block is known by its place in the pool; `PoolRuns.MessageNamesBlock` says that
  address and start port name it, and `LeaseLookup` runs the store of tunnels beside the protocol.
- **Fragments** (`FragSizes`, `Fragments`, `Reassembly`, `FragTable`, `FragLife`, `TunnelIdentity`): the balanced
  sizes, the three fragmenters, and the chained hash of partial datagrams, whose imperative operations
  refine a value model on which reassembly is proved for every order of arrival; and, of both together,
  that either direction of the tunnel gives back the packet, whose fragments the key made of
  source, destination and identification brings together. `FragLife` has the timer in it: which
  buckets live and which datagrams complete, told by the arrivals and the ticks alone.
- **Translated packets** (`Checksum`, `Translation`, `Delivery`): the incremental checksum on words, and
  the bytes of packets that leave and enter the customer side, on hosts of either byte order. What
  enters is rewritten by lines 235 to 369 of pktdown.c; that file is not UTF-8, so the rows below name
  where it is called and what it uses.
- **The MSS option** (`TcpMss`, `TcpOptions`): the scan over the bytes, and what it comes to for lists of
  options.
- **Address text** (`InetText`, `InetCode`, `InetShape`, `InetGrammar`): readers and writers, their round
  trips, and exactly which texts are read as what.
- **The session table of the translator** (`NatTable`, `SessionWalk`, `SessionSweep`) and **the worker
  pool** (`WorkQueue`, `WorkerPool`).

`Arith` has facts about products and quotients of variables, `Tunnels` the tunnel record.

## Assumptions

- Allocation succeeds, and each operation is one atomic step: the gap between the two inserts of a
  create is not modelled.
- Lease runs: one request of a client at a time, no static tunnels, and no tunnel expires between its
  client's detect and alloc messages. `Leases.LateExpiry` shows what happens otherwise.
- The hash functions, the random numbers, the address translation of a fragment's header, the byte order
  of the host and whether a thread can be started are parameters.
- `ip_send_check` of the kernel is taken as what section 3.1 of RFC 791 asks of the header checksum.
- Ranges of ports divide 64 slots; lifetimes are 64-bit, ports and lengths on the wire 16-bit.
- The MTU is at least 1280, inner packets have 1 to 65535 bytes, and the pieces of a datagram fit the
  66000 bytes of the reassembly buffer.

## Where the code and its documentation differ

- The comment in the address reader says that `::` in a full address is ignored; it clears the bytes
  after it (`InetText.FullColonText`).
- The MSS is lowered to the MTU less 80, the sizes of the three headers it names.
- A lifetime that is not a multiple of the tick wraps round instead of ending
  (`TunnelExpiry.ExpiresOnTime`).
- Ports less than one range below 1024 are mapped to the first block
  (`TunnelLookup.StartPortOwner`), and a start port from 1 to 1023 frees slot 0
  (`AddrPool.AddrPoolList.DeallocAddrPort`).
- One failed allocation does not mean that the pool is exhausted (`PoolRuns.OneMissIsNotEnough`), and a
  range of one slot can be given ports 0 to 1023 (`PoolRuns.OneSlotWraps`).
- The server takes a refused create for a success, so a block granted while the store is full is lost
  for good (`Leases.GrantOutcome`, `Leases.LostStays`), exactly then (`Leases.LeakExact`), and a run can
  get there (`Leases.LeakReached`).
- A random draw of 0 makes the upstream fragmenter draw and translate again; what it sends is then
  one datagram only if that has no effect (`Fragments.DatagramExact`).
- An MSS option at an odd offset usually spoils the checksum (`TcpMss.PatchKeepsSum`), and an absent
  UDP checksum does not stay absent unless the replaced fields add up to the new ones
  (`Checksum.NoChecksumKept`).
- On the customer side the port of a packet that comes in is read and written as if its header had no
  options, and the checksum where the header length says: a packet with IP options keeps its port
  (`Delivery.NatHandle`, `Delivery.OptionsMislead`).
- The address reader takes one colon too many behind eight groups (`InetGrammar.TrailingColon`), and groups
  and octets with any number of leading zeros.
- On the customer side a reassembled packet without payload would be divided into 0 pieces
  (`FragSizes.PiecesBound`).
- A sweep of the session table takes two ticks off a session, one for each of its nodes
  (`NatTable.DBKeyHashTable.Sweep`), and more exactly when a walk starts again behind one of them
  (`SessionSweep.SweepExact`, `NatTable.RestartTakesMore`).
- A pool of workers can be freed with jobs in its queue (`WorkerPool.LeftBehind`).
- The counter of the job queue is never reduced (`WorkQueue.Queue.Pop`).

## Model

| member | source | states |
|---|---|---|
| `Keys.MemcmpIsNumeric` | lightweight-4over6/TC/kernel_module/src/bplus.c:117-120 | comparing two keys of one length with memcmp is comparing the numbers their bytes spell, and 0 means equal keys; so the tree may be modelled over numbers |
| `Keys.MemcmpFirst` | lightweight-4over6/TC/kernel_module/src/bplus.c:117-120 | memcmp decides by the first bytes that differ |
| `Keys.KeyV4Injective` | lightweight-4over6/TC/kernel_module/src/packet.c:172-173 | two tunnels have the same packed IPv4 key only if address and start port agree |
| `Keys.KeyV4Bytes` | lightweight-4over6/TC/kernel_module/src/packet.c:172-173 | the packed key is the bytes of the address and then of the port, each lowest byte first |
| `BPlusTree.SpanUnique` | lightweight-4over6/TC/kernel_module/src/bplus.c:939-967 | in a well-formed tree at most one node of each level spans a key, so a search path is unique |
| `BPlusTree.FindLink` | lightweight-4over6/TC/kernel_module/src/bplus.c:955-961 | the walk along the links stops at the first link not below the key |
| `BPlusLookup.Search` | lightweight-4over6/TC/kernel_module/src/bplus.c:939-993 | search returns the record indexed under the key, or none exactly when the key is not indexed |
| `BPlusLookup.Height` | lightweight-4over6/TC/kernel_module/src/bplus.c:122-145 | the height is the number of levels; a tree of h > 1 levels has at least 2 * 4^(h-1) values, and no tree within the size limit has more than 10 levels |
| `BPlusLookup.RootCount` | lightweight-4over6/TC/kernel_module/src/bplus.c:235-555 | the degree bounds that split and merge keep force at least 2 * 4^level values below an internal root |
| `BPlusLookup.CountNode` | lightweight-4over6/TC/kernel_module/src/bplus.c:235-555 | every node other than the root has at least 4^(level+1) values in its span |
| `BPlusChain.ListingSize` | lightweight-4over6/TC/kernel_module/src/bplus.c:560-734 | the ordered value chain has exactly as many values as the index has keys |
| `BPlusChain.AddBefore` | lightweight-4over6/TC/kernel_module/src/bplus.c:706-719 | linking a value before its successor keeps the chain strictly ascending, doubly linked and equal to the index, which gains exactly that key |
| `BPlusChain.AddAfter` | lightweight-4over6/TC/kernel_module/src/bplus.c:720-727 | the same when the value is linked behind its predecessor |
| `BPlusChain.TakeOut` | lightweight-4over6/TC/kernel_module/src/bplus.c:819-833 | unlinking a value keeps the chain equal to the index, which loses exactly that key; all other values keep their order |
| `BPlusSplit.SplitShape` | lightweight-4over6/TC/kernel_module/src/bplus.c:235-385 | halving a node below its parent keeps every clause of the search tree: order, exact subtree maxima, parent pointers, levels and leaf contents |
| `BPlusSplit.RaiseShape` | lightweight-4over6/TC/kernel_module/src/bplus.c:284-339 | putting a new root above the old one keeps the search tree |
| `BPlusSplit.Split` | lightweight-4over6/TC/kernel_module/src/bplus.c:235-385 | the recursive split ends with every node within its 4 to 8 links (root 2, or 1 as a leaf) and the same index; its link lists are sequences, whose rings LinkRing has |
| `BPlusMerge.AbsorbShape` | lightweight-4over6/TC/kernel_module/src/bplus.c:388-555 | moving all links of a node into its sibling keeps every clause of the search tree |
| `BPlusMerge.CollapseShape` | lightweight-4over6/TC/kernel_module/src/bplus.c:471-479 | dropping a root with a single child keeps the search tree |
| `BPlusMerge.Merge` | lightweight-4over6/TC/kernel_module/src/bplus.c:388-555 | the recursive merge, with the splits it may cause, ends with every node within its bounds and the same index; its link lists are sequences, whose rings LinkRing has |
| `BPlusInsert.RaiseKeys` | lightweight-4over6/TC/kernel_module/src/bplus.c:634-644 | a key above all others is written into every node down the last links, and only the parent of the next node is out of step in between |
| `BPlusInsert.InsertValue` | lightweight-4over6/TC/kernel_module/src/bplus.c:560-734 | a full tree refuses; otherwise the index gains the key exactly if it did not have it, an existing key wins, and the tree is valid: balanced, exact keys, chain in order |
| `BPlusInsert.Insert` | lightweight-4over6/TC/kernel_module/src/bplus.c:736-752 | the same for a record; the new key maps to that record and no other key changes |
| `BPlusDelete.LowerKeys` | lightweight-4over6/TC/kernel_module/src/bplus.c:841-866 | after the largest key of a leaf is gone, the exact subtree maxima are restored in every ancestor and every lower bound |
| `BPlusDelete.DeleteValue` | lightweight-4over6/TC/kernel_module/src/bplus.c:757-913 | the index loses exactly the key, the chain loses exactly its value, and the tree is valid again; an absent key changes nothing |
| `BPlusDelete.Delete` | lightweight-4over6/TC/kernel_module/src/bplus.c:915-936 | the record that was under the key is returned, or none |
| `LinkRing.LinkList.Append` | lightweight-4over6/TC/kernel_module/src/bplus.c:616-627 | the circular list of a node, linked both ways, gets a link behind all others without moving the header; the links in order are the old ones and the new one |
| `LinkRing.LinkList.InsertBefore` | lightweight-4over6/TC/kernel_module/src/bplus.c:689-703 | a link goes in front of the i-th, the header moves if that was the first, and the ring stays linked both ways: the slices of an insert |
| `LinkRing.LinkList.SplitLink` | lightweight-4over6/TC/kernel_module/src/bplus.c:341-370 | in the parent of a split node the i-th link becomes two, to the first and the second half: the slices of a split |
| `LinkRing.LinkList.CutBehind` | lightweight-4over6/TC/kernel_module/src/bplus.c:258-279 | one ring becomes two rings, of the first n links and of the others, each linked both ways with its own header and count |
| `LinkRing.LinkList.TakeLeft` | lightweight-4over6/TC/kernel_module/src/bplus.c:444-454 | two rings become one, the left neighbour's links first |
| `LinkRing.LinkList.GiveRight` | lightweight-4over6/TC/kernel_module/src/bplus.c:508-518 | the same for a right neighbour, which takes all links in front of its own |
| `LinkRing.LinkList.Remove` | lightweight-4over6/TC/kernel_module/src/bplus.c:880-885 | the i-th of several links goes, the header moves if that was the first, and the ring stays linked both ways: the slices of a delete and of a merge |
| `TunnelStore.Storage.Create` | lightweight-4over6/TC/kernel_module/src/packet.c:164-211 | create succeeds exactly when the IPv4 key is new and neither index is full; a failed create leaves both indexes as they were, also when the second insert is refused and the first is taken back; indexes that were equal are equal after it exactly if it failed or the client was new |
| `TunnelStore.CreatePaired` | lightweight-4over6/TC/kernel_module/src/packet.c:164-211 | a successful create keeps the two indexes equal if and only if the client was not yet in the IPv6 index |
| `TunnelStore.Storage.Destroy` | lightweight-4over6/TC/kernel_module/src/packet.c:219-264 | delete by client removes its tunnel from both indexes and reports its address and start port, or fails and changes nothing; equal indexes stay equal |
| `TunnelStore.DestroyPaired` | lightweight-4over6/TC/kernel_module/src/packet.c:219-264 | deleting a client's tunnel under both of its keys keeps the indexes equal |
| `TunnelStore.Storage.TimeCheck` | lightweight-4over6/TC/kernel_module/src/packet.c:776-835 | one tick off an unsigned lifetime; the tunnel goes from both indexes exactly when the result is 0, and then the one notice has its client, its public address and its start port |
| `TunnelExpiry.NextInOrder` | lightweight-4over6/TC/kernel_module/src/bplus.c:208-232 | after any of the values already passed are deleted, the chain still leads from the current value to the one that followed it at the start |
| `TunnelExpiry.TimeOut` | lightweight-4over6/TC/kernel_module/src/packet.c:846-856 | every tunnel ages exactly once; exactly those at 0 leave both indexes, the rest stay, the indexes stay equal; each notice has the client, address and start port of one of them, each of them has one, and they come in key order although the callback deletes what it stands on |
| `TunnelExpiry.DestroyStorage` | lightweight-4over6/TC/kernel_module/src/storage.c:205-243 | the traversal that deletes each value it visits leaves both indexes empty |
| `TunnelExpiry.ExpiresOnTime` | lightweight-4over6/TC/kernel_module/src/packet.c:793-794 | a lifetime ends at the tick that uses it up if and only if the tick divides it; otherwise that tick wraps it round to a huge value |
| `TunnelLookup.StartPortOwner` | lightweight-4over6/TC/kernel_module/src/packet.c:110-115 | a port maps to the start of a block exactly if the block contains it, or the block is the first and the port lies less than one range below 1024 |
| `TunnelLookup.FindOwner` | lightweight-4over6/TC/kernel_module/src/packet.c:567-571 | for ports from 1024 on the lookup finds the tunnel whose block has the port and no other, and finds none only if there is none |
| `TunnelLookup.PoolAligned` | lightweight-4over6/TC/user_module/src/addrpoolentity.c:166-178 | the start ports that the pool gives are aligned as the lookup needs, for every usable place |
| `PortMap.BitmapGet` | lightweight-4over6/TC/user_module/src/portmap.c:75-81 | non-zero exactly for a used bit, -1 for a bit no map has |
| `PortMap.MaskIs` | lightweight-4over6/TC/user_module/src/portmap.c:36-46 | a bit of the map is 0x80 shifted right by its number within the byte |
| `PortMap.BitmapSet` | lightweight-4over6/TC/user_module/src/portmap.c:83-97 | exactly one bit of the set of used bits changes, none for a bit no map has |
| `PortMap.RangeTest` | lightweight-4over6/TC/user_module/src/portmap.c:100-110 | 1 exactly when every bit of the range exists and is free |
| `PortMap.RangeSet` | lightweight-4over6/TC/user_module/src/portmap.c:112-119 | exactly the bits of the range are added to, or taken from, the set of used bits |
| `AddrPool.BoundaryCheck` | lightweight-4over6/TC/user_module/src/addrpoolentity.c:168-182 | the 16-bit wrap check rejects exactly the last place of a range of more than one slot |
| `AddrPool.AddrPoolList.constructor` | lightweight-4over6/TC/user_module/src/addrpoolentity.c:102-123 | a ring of one blank node for each address from start to end, the first one current |
| `AddrPool.AddrPoolList.AllocAddrPort` | lightweight-4over6/TC/user_module/src/addrpoolentity.c:140-229 | the search ends as the step by step search on values says: with the ports and address of a place, or with a completed round, and with exactly its marks and cursors; it succeeds exactly if some usable free place is in reach |
| `AddrPool.AddrPoolList.DeallocAddrPort` | lightweight-4over6/TC/user_module/src/addrpoolentity.c:246-278 | exactly the slots from the start port on are freed at exactly the named address; port 0 and unknown addresses are refused; ports 1 to 1023 free from slot 0 |
| `PoolScan.MissedExact` | lightweight-4over6/TC/user_module/src/addrpoolentity.c:187-229 | a failing search has passed over no place it could have given |
| `PoolScan.TwoMisses` | lightweight-4over6/TC/user_module/src/addrpoolentity.c:187-229 | two failing searches in a row leave no free place at any address |
| `PoolOrder.AllocGives` | lightweight-4over6/TC/user_module/src/addrpoolentity.c:140-228 | a search gives the first place that is usable and free in its order, the addresses in turn from their cursors and at last the start of the first, or none if there is none; and leaves exactly these cursors and marks |
| `PoolScan.SearchOutcomes` | lightweight-4over6/TC/user_module/src/addrpoolentity.c:187-229 | wherever a search stands, it ends with a free place that was in reach, or has passed every place it could have given |
| `PoolRuns.OneMissIsNotEnough` | lightweight-4over6/TC/user_module/src/addrpoolentity.c:187-229 | for every range below 64 a run of allocations and releases from a new pool of two addresses leads to a search that fails although the first place of the second address is free and usable |
| `PoolScan.TryStep` | lightweight-4over6/TC/user_module/src/addrpoolentity.c:202-211 | a taken place, or the rejected last one, is passed with everything known of the search kept |
| `PoolScan.SkipStep` | lightweight-4over6/TC/user_module/src/addrpoolentity.c:195-200 | the reset of a full cursor and the step to the next address keep everything known of the search |
| `PoolRuns.FoundHolds` | lightweight-4over6/TC/user_module/src/addrpoolentity.c:140-229 | an allocation gives a block that was not out, and the marks stay exactly those of the blocks that are out plus rejected last places |
| `PoolRuns.ReleasedHolds` | lightweight-4over6/TC/user_module/src/addrpoolentity.c:246-278 | a release of a block that is out keeps that account |
| `PoolRuns.RunHolds` | lightweight-4over6/TC/user_module/src/addrpoolentity.c:140-278 | the account holds in every state of every run of allocations and releases from a new pool |
| `PoolRuns.LivePorts` | lightweight-4over6/TC/user_module/src/addrpoolentity.c:166-184 | blocks that are out are whole port ranges within 1024 to 65535 and two of one address have no port in common |
| `PoolRuns.MarksCount` | lightweight-4over6/TC/user_module/src/addrpoolentity.c:140-278 | the number of marks of an address is the range times its blocks, plus one range once its last place was rejected |
| `PoolRuns.OneSlotWraps` | lightweight-4over6/TC/user_module/src/addrpoolentity.c:216-224 | a block starts at 1024 or above exactly unless the range is one slot and the slot the last, which wraps to ports 0 to 1023 |
| `PoolRuns.MessageNamesBlock` | lightweight-4over6/TC/user_module/src/nlmessage.c:167-192 | the start port in a delete message names its block and no other, and frees exactly its slots |
| `Leases.StepKeeps` | lightweight-4over6/TC/kernel_module/src/netlink.c:186-284 | every step of the protocol keeps: each block that is out has exactly one owner (tunnel, grant, reply, notice, or lost), and the pool marks exactly these |
| `Leases.RunSafe` | lightweight-4over6/TC/user_module/src/pcpmsg.c:73-171 | in every state of every run the two indexes agree, the pool has every slot of every tunnel marked, and no two clients share a port of an address |
| `Leases.RenewalIsIdle` | lightweight-4over6/TC/user_module/src/pcpmsg.c:97-121 | a renewal asks to create the tunnel that is there; the refusal changes no index |
| `Leases.GrantOutcome` | lightweight-4over6/TC/kernel_module/src/netlink.c:213-253 | a granted block becomes a tunnel exactly if each index has fewer than 600000 tunnels; otherwise, and only then, all its slots are marked and no tunnel, request or notice names it |
| `Leases.LostStays` | lightweight-4over6/TC/user_module/src/nlmessage.c:204-214 | a marked block that nothing names stays so in every later state of every run, so no search ever gives it again |
| `Leases.LeakExact` | lightweight-4over6/TC/kernel_module/src/netlink.c:213-253 | in any state of a run there is a marked block that nothing names if and only if some step before created the tunnel of a grant while an index was full |
| `Leases.RunSize` | lightweight-4over6/TC/kernel_module/src/bplus.c:560-569 | in every state of every run the two indexes have one size, at most 600000 |
| `Leases.LeakReached` | lightweight-4over6/TC/kernel_module/src/netlink.c:213-253 | from every new pool with more than 600000 addresses a run fills the store and then loses a block |
| `Leases.LateExpiry` | lightweight-4over6/TC/user_module/src/netlink_async.c:186-199 | without the timing assumption safety fails: an expiry between detect and alloc leads in three steps to a live tunnel whose block the pool holds free |
| `Leases.LateExpiryReached` | lightweight-4over6/TC/user_module/src/netlink_async.c:186-199 | from every new pool a timely run leads to such a renewal, and from there three steps to the unsafe state |
| `LeaseLookup.RunHolding` | lightweight-4over6/TC/kernel_module/src/packet.c:164-264 | beside every run of the protocol, a store that each step changes as the code does has in every state exactly the tunnels of the leases, under the keys of their addresses and start ports |
| `LeaseLookup.CreateLeased` | lightweight-4over6/TC/kernel_module/src/packet.c:164-211 | the create step on the store itself succeeds exactly for a grant while neither index is full, and adds exactly that tunnel |
| `LeaseLookup.DeleteLeased` | lightweight-4over6/TC/kernel_module/src/packet.c:219-264 | the delete step on the store itself succeeds exactly for a client that leases a block, removes exactly its tunnel and reports the address and start port of the block |
| `LeaseLookup.AgeLeased` | lightweight-4over6/TC/kernel_module/src/packet.c:776-835 | one tick on a tunnel of the store is the expire step of the protocol exactly when its time is up, with one notice of the client, the address and the start port of the leased block, and otherwise changes neither index |
| `LeaseLookup.DeliverLeased` | lightweight-4over6/TC/user_module/src/netlink_async.c:186-199 | freeing on the pool what the oldest notice names is the deliver step: in every run exactly the slots of the expired tunnel's block become free |
| `LeaseLookup.RecycleLeased` | lightweight-4over6/TC/user_module/src/nlmessage.c:167-192 | the same for the address and start port that the answer to a delete names |
| `LeaseLookup.AllocLeased` | lightweight-4over6/TC/user_module/src/nlmessage.c:130-165 | the search on the pool is the alloc step: the client is told the address and the ports, 1024 * b + 1024 and on, of exactly the block that it is granted |
| `LeaseLookup.FindLeased` | lightweight-4over6/TC/kernel_module/src/packet.c:563-571 | in every state of every run, for ports from 1024 on, the lookup of a port finds the client that leases it, and no tunnel exactly if nobody does |
| `FragSizes.FirstSize` | lightweight-4over6/TC/kernel_module/src/packet.c:911-926 | no unsigned subtraction of the size computation goes below zero, and after the switch to the bigger size the first size fits |
| `FragSizes.Balance` | lightweight-4over6/TC/kernel_module/src/packet.c:903-930 | the balanced sizes are positive multiples of 8 within the limit, the first the largest, and the piece count is the length over the limit rounded up; both header sizes |
| `FragSizes.SizesAreMean` | lightweight-4over6/TC/kernel_module/src/packet.c:911-930 | the sizes are balanced: n fragments of the common size come to the length within 8 bytes each, and the first is the largest by less than 8 * n + 8 |
| `FragSizes.PiecesBound` | lightweight-4over6/TI/openwrt_cpe/src/fragment.c:355-360 | the piece count that the sizes are divided by is 0 exactly for an empty payload |
| `FragSizes.FewPiecesAlways` | lightweight-4over6/TC/kernel_module/src/packet.c:903-910 | no datagram makes more than 54 pieces |
| `Fragments.IPv4FragandIPinIP` | lightweight-4over6/TC/kernel_module/src/packet.c:877-980 | the bodies of the packets are the pieces of the inner packet in order, each within the tunnel MTU; the offset field is the place of the body, a multiple of 8, with the lowest bit set in all but the last, and the length field is the body and 8; there are at most ceil(len / limit), of the balanced sizes |
| `Fragments.PktFragHandle` | lightweight-4over6/TC/kernel_module/src/defrag6.c:398-488 | the same for a reassembled packet cut again behind copies of its IPv4 header: the field is the place over 8, with the flag 0x2000 in all but the last, and the total length is the body and 20 |
| `Fragments.Ipv6FragHandl` | lightweight-4over6/TI/openwrt_cpe/src/pktup.c:332-398 | one fragment for each block of the packet, ceil(len / limit) in all, with the place and the more-flag in the offset field and the length in its field, whatever the draws; they are one datagram, the translated packet under one identification, if and only if the first random draw is not 0 or all that follows it draws 0 again and translates nothing |
| `Fragments.DatagramExact` | lightweight-4over6/TI/openwrt_cpe/src/pktup.c:366-378 | that condition is exact for every sequence of draws and every translation |
| `Fragments.ZeroDrawSpoils` | lightweight-4over6/TI/openwrt_cpe/src/pktup.c:366-378 | a first draw of 0 and a second one that is not gives a packet of 1240 bytes two identifications |
| `Fragments.CarriesOrder` | lightweight-4over6/TC/kernel_module/src/packet.c:931-960 | in a tiling the ends grow strictly and only the last fragment says that no more follow |
| `FragTable.BucketNode.FragInsert` | lightweight-4over6/TC/kernel_module/src/hash.c:159-230 | the doubly linked list becomes the ordered insertion of the fragment; one at an offset already there is dropped |
| `FragTable.BucketNode.UpdateLength` | lightweight-4over6/TC/kernel_module/src/defrag6.c:181-204 | the counted bytes, the told length and the completion test, with 32-bit sums |
| `FragTable.BucketNode.Drain` | lightweight-4over6/TC/kernel_module/src/defrag6.c:313-368 | the buffer is the pieces written in list order, the length their sum, and the list ends empty |
| `FragTable.ShashCb.BucketFind` | lightweight-4over6/TC/kernel_module/src/hash.c:135-157 | the bucket of a key is found exactly if there is one |
| `FragTable.ShashCb.BucketInsert` | lightweight-4over6/TC/kernel_module/src/hash.c:232-260 | a new key gets an empty bucket and no other key changes |
| `FragTable.InsertedAt` | lightweight-4over6/TC/kernel_module/src/hash.c:159-230 | a fragment goes to the first place whose offset is not smaller, and only if that offset is another |
| `FragTable.ShashCb.Receive` | lightweight-4over6/TC/kernel_module/src/defrag6.c:267-311 | a fragment changes exactly the bucket of its key, as the value model says, with the count, the 32-bit sums, the told length and the list stated for the accepted, the completing and the surplus fragment; an accepted one sets the time of its bucket, and no other bucket's time changes |
| `FragTable.ShashCb.Sweep` | lightweight-4over6/TC/kernel_module/src/defrag6.c:517-561 | exactly the buckets whose time runs out with this tick are gone, with their fragments; all others keep their fragments and lose one tick |
| `FragLife.Receive` | lightweight-4over6/TC/kernel_module/src/defrag6.c:267-311 | a fragment at the table in place is the arrival step of the timed value model |
| `FragLife.Sweep` | lightweight-4over6/TC/kernel_module/src/defrag6.c:517-561 | the timer at the table in place is its tick step |
| `FragLife.BucketLives` | lightweight-4over6/TC/kernel_module/src/defrag6.c:517-561 | over every run of fragments and ticks from a state without the key: its bucket is there exactly while the ticks since its last accepted fragment come to less than the time-out, and has that difference left |
| `FragLife.BucketSince` | lightweight-4over6/TC/kernel_module/src/defrag6.c:267-311 | and what it holds depends only on the pieces that came since it was made |
| `FragLife.SteadyKeeps` | lightweight-4over6/TC/kernel_module/src/defrag6.c:517-561 | nothing that came is lost if and only if no pause between two fragments reaches the time-out |
| `FragLife.ReassemblesInTime` | lightweight-4over6/TC/kernel_module/src/defrag6.c:267-359 | with sweeps and other datagrams in between, a fragment completes its datagram if and only if it is the last one, there are no more than a bucket takes and every pause was shorter than the time-out; the bytes are then the datagram |
| `Reassembly.InsertedAscends` | lightweight-4over6/TC/kernel_module/src/hash.c:159-230 | ordered insertion keeps offsets strictly ascending |
| `Reassembly.WrittenAt` | lightweight-4over6/TC/kernel_module/src/defrag6.c:313-368 | each byte of the buffer is that of the last piece that covers it, and is left alone if none does, also where pieces overlap |
| `Reassembly.Reassembles` | lightweight-4over6/TC/kernel_module/src/defrag6.c:181-204 | for every order of arrival of pieces with distinct offsets: completion fires exactly at the last missing piece, never earlier, and never at all exactly if there are more pieces than a bucket takes; the bytes are then the datagram |
| `Reassembly.ReassemblesAmongOthers` | lightweight-4over6/TC/kernel_module/src/defrag6.c:267-359 | the same for a fresh key with its fragments interleaved with those of any other datagrams |
| `Reassembly.Interleaved` | lightweight-4over6/TC/kernel_module/src/hash.c:135-260 | the bucket of a key depends only on the fragments under that key |
| `Reassembly.CarriedReassembles` | lightweight-4over6/TI/openwrt_cpe/src/fragment.c:238-323 | whatever a fragmenter on either side sent is put together again to the packet it cut |
| `TunnelIdentity.CutRebuilt` | lightweight-4over6/TI/openwrt_cpe/src/fragment.c:238-323 | what was cut into no more pieces than a bucket takes is put together to the same bytes, under the key that source, destination and identification of its packets make, in every order of arrival and among any other packets, exactly when the last piece comes |
| `TunnelIdentity.Downstream` | lightweight-4over6/TC/kernel_module/src/packet.c:877-980 | concentrator to customer side: every IPv4 packet up to 65535 bytes comes out as it went in; its fragments all have the key of source, destination and identification |
| `TunnelIdentity.Upstream` | lightweight-4over6/TI/openwrt_cpe/src/pktup.c:332-398 | customer side to concentrator: every packet up to 65535 bytes comes out as its first block after the translation followed by the rest as it was, under the exact condition on the draws |
| `Checksum.UpdateBalances` | lightweight-4over6/TI/openwrt_cpe/src/helper.c:93-109 | the updated checksum and the new field add up to the old pair in one's-complement arithmetic |
| `Checksum.UpdateZero` | lightweight-4over6/TI/openwrt_cpe/src/helper.c:93-109 | which updates give 0 and which give all ones |
| `Checksum.TranslateVerifies` | lightweight-4over6/TI/openwrt_cpe/src/pktgen.c:140-199 | after the three updates for address and port a segment of any length verifies if and only if it did before, as long as some word that is not replaced is not 0 |
| `Checksum.TranslatedWords` | lightweight-4over6/TI/openwrt_cpe/src/pktgen.c:140-199 | of a segment of any length exactly the two halves of the address, the port and the checksum change, and the first three to the given values |
| `Checksum.TranslateBack` | lightweight-4over6/TI/openwrt_cpe/src/pktgen.c:140-199 | translating back with the old fields gives the old segment, save that a checksum of all ones becomes 0 |
| `Checksum.ByteOrder` | lightweight-4over6/TI/openwrt_cpe/src/helper.c:93-109 | hosts of either byte order put the same two bytes into the checksum |
| `Translation.UpdateHeader` | lightweight-4over6/TI/openwrt_cpe/src/pktgen.c:140-199 | on the buffer of the new packet: the port and the checksum of the transport header become what the translation says, in network order on hosts of either byte order, and no other byte changes |
| `Translation.UpdateNetworkHeader` | lightweight-4over6/TI/openwrt_cpe/src/pktgen.c:117-130 | the public address replaces the source, the header checksum is made to fit, and no other byte changes |
| `Translation.NormalPacketHandl` | lightweight-4over6/TI/openwrt_cpe/src/pktup.c:300-330 | behind the IPv6 header stands the packet with source address, source port or identification, and the two checksums replaced and every other byte as it was; its header verifies, and its TCP or UDP segment with pseudo header verifies if and only if the old one did |
| `Translation.SegmentTranslated` | lightweight-4over6/TI/openwrt_cpe/src/pktgen.c:140-199 | the words of a segment rewritten in place, with its pseudo header, are those of the translation on words |
| `Translation.EchoTranslated` | lightweight-4over6/TI/openwrt_cpe/src/pktgen.c:201-215 | an ICMP message keeps its one's-complement sum when its identification is replaced |
| `Delivery.PktChecksum` | lightweight-4over6/TI/openwrt_cpe/src/helper.c:93-109 | pktchecksum of pktdown.c on the buffer: the header checksum is updated twice and the transport checksum three times, at the place the header length says, and no other byte changes |
| `Delivery.NatHandle` | lightweight-4over6/TI/openwrt_cpe/src/fragment.c:518-538 | nathandle of pktdown.c, called here: on a packet that comes in the client's address replaces the destination; the old port does so if and only if the header has no options or the port was that already; without options only these and the two checksums change, and header and segment verify if and only if they did before the destination was replaced |
| `Delivery.SegmentDelivered` | lightweight-4over6/TI/openwrt_cpe/src/fragment.c:518-538 | the words of the delivered segment are the translated ones, the inverse of what went out |
| `Delivery.OptionsMislead` | lightweight-4over6/TI/openwrt_cpe/src/fragment.c:518-538 | a datagram whose IP options happen to have the session's port 22 bytes behind the start of the packet, where the session is looked up, keeps its port whatever the session says |
| `Checksum.NoChecksumKept` | lightweight-4over6/TI/openwrt_cpe/src/pktgen.c:140-199 | an absent UDP checksum stays absent after the three updates if and only if the replaced fields add up to the same one's-complement number as the new ones |
| `TcpMss.FixMssCksum` | lightweight-4over6/TC/kernel_module/src/packet.c:1137-1160 | only the two words change: the option to the new value, the checksum to its incremental update |
| `TcpMss.FixKeepsSum` | lightweight-4over6/TC/kernel_module/src/packet.c:1137-1160 | the sum of the bytes is kept if and only if the word is at an even offset or the changes of its two bytes agree modulo 257 |
| `TcpMss.PatchTcpMss` | lightweight-4over6/TC/kernel_module/src/packet.c:1164-1257 | the scan ends, stays in bounds and the buffer becomes what the option layout says: the first MSS value rewritten, or nothing |
| `TcpOptions.SegmentPatched` | lightweight-4over6/TC/kernel_module/src/packet.c:1164-1257 | in a segment of a TCP SYN without data, whose options are the encoding of a list without a signature and whose first MSS option has two bytes that spell more than the MTU less 80, these two bytes become the MTU less 80 and the checksum is updated for them, and no other byte changes |
| `TcpOptions.SegmentKept` | lightweight-4over6/TC/kernel_module/src/packet.c:1164-1257 | in every other packet whose options are the encoding of a list no byte changes |
| `TcpOptions.PatchedParses` | lightweight-4over6/TC/kernel_module/src/packet.c:1164-1257 | and none in a packet whose bytes behind the header are no options, or that is too short |
| `TcpMss.PatchChanges` | lightweight-4over6/TC/kernel_module/src/packet.c:1164-1257 | no byte changes but the checksum and the value of the MSS option |
| `TcpMss.PatchedMss` | lightweight-4over6/TC/kernel_module/src/packet.c:1249-1256 | a patched option holds the MTU less 80, if the MTU has that much |
| `TcpMss.PatchIdempotent` | lightweight-4over6/TC/kernel_module/src/packet.c:1164-1257 | patching twice is patching once |
| `TcpMss.PatchKeepsSum` | lightweight-4over6/TC/kernel_module/src/packet.c:1164-1257 | the segment's checksum still fits if and only if the option is at an even offset or its byte changes agree modulo 257 |
| `InetCode.InetNtop4` | lightweight-4over6/TC/kernel_module/src/help.c:278-307 | the dotted quad of the four bytes, or none for a size below 16 |
| `InetCode.InetPton4` | lightweight-4over6/TC/kernel_module/src/help.c:106-143 | the reader of dotted quads, with its refusals |
| `InetShape.DigitsAre` | lightweight-4over6/TC/kernel_module/src/help.c:162-163 | the digits are those of 0123456789abcdef and, for reading only, 0123456789ABCDEF |
| `InetShape.DecIs` | lightweight-4over6/TC/kernel_module/src/help.c:289-304 | an octet is written as its decimal numeral without leading zeros |
| `InetShape.HexIs` | lightweight-4over6/TC/kernel_module/src/help.c:400-400 | a group is written as its hexadecimal numeral in lower case without leading zeros |
| `InetShape.Read4Exact` | lightweight-4over6/TC/kernel_module/src/help.c:106-143 | inet_pton4 takes exactly the texts of four decimal numerals of at most 255 with dots between them, and reads these four numbers |
| `InetText.RoundTrip4` | lightweight-4over6/TC/kernel_module/src/help.c:106-143 | reading a written IPv4 address gives back its bytes |
| `InetCode.FindBest` | lightweight-4over6/TC/kernel_module/src/help.c:337-374 | the run that is abbreviated is the first longest run of at least two zero words |
| `InetCode.InetNtop6` | lightweight-4over6/TC/kernel_module/src/help.c:315-418 | the text of the words with that run as a double colon and embedded quads, or none if it does not fit; it fits any buffer of 46 bytes, and what is written reads back as the address |
| `InetCode.InetPton6` | lightweight-4over6/TC/kernel_module/src/help.c:159-240 | the reader of IPv6 addresses, with its refusals and the shift by hand |
| `InetShape.FormatShape` | lightweight-4over6/TC/kernel_module/src/help.c:376-410 | what is written is eight groups with colons between them, or the groups around a double colon, or a dotted quad behind a double colon or behind ::ffff: |
| `InetGrammar.Read6Exact` | lightweight-4over6/TC/kernel_module/src/help.c:159-240 | inet_pton6 takes exactly the texts of this grammar, with groups of hexadecimal numerals of any length up to 0xffff, at most one double colon, an optional dotted quad, and 16 bytes in all or at most 16 with the double colon; and reads from each the bytes of its groups with the zeros filled in |
| `InetGrammar.TrailingColon` | lightweight-4over6/TC/kernel_module/src/help.c:194-207 | one colon too many behind eight groups is taken and does not matter |
| `InetCode.WriteRead6` | lightweight-4over6/TC/kernel_module/src/help.c:159-418 | reading a written IPv6 address gives back all 16 bytes, for every address, and the text has at most 45 characters |
| `InetText.RoundTrip6` | lightweight-4over6/TC/kernel_module/src/help.c:159-418 | the same whichever run of zero words is abbreviated |
| `InetText.FullColon` | lightweight-4over6/TC/kernel_module/src/help.c:222-235 | a double colon in a full address, whose last group may still have to be stored, clears what follows it; it is harmless exactly if that is zero |
| `InetText.FullColonText` | lightweight-4over6/TC/kernel_module/src/help.c:159-240 | every text of eight groups and a double colon is accepted, wherever that stands, and the groups behind it are read as 0 |
| `InetText.FullColonExample` | lightweight-4over6/TC/kernel_module/src/help.c:159-240 | 1:2:3:4::5:6:7:8 is read as 1:2:3:4:0:0:0:0 |
| `NatTable.DBKeyHashTable.Insert` | lightweight-4over6/TI/openwrt_cpe/src/dbkeyhash.c:262-294 | a session gets one node in the bucket of each key, pointing at each other with the right bucket numbers; every other session keeps its nodes |
| `NatTable.DBKeyHashTable.Find` | lightweight-4over6/TI/openwrt_cpe/src/dbkeyhash.c:297-323 | a session is found under its upstream key for one kind of search and under its downstream key for the other, of several with the key the one inserted last, and none only if no session has the key |
| `NatTable.DBKeyHashTable.InsertedFound` | lightweight-4over6/TI/openwrt_cpe/src/dbkeyhash.c:262-323 | after an insert the searches under its two keys find the new session, and those under other keys what they found before |
| `NatTable.DBKeyHashTable.DropPair` | lightweight-4over6/TI/openwrt_cpe/src/dbkeyhash.c:159-183 | exactly the two nodes of one session leave their chains, also when both are in one bucket |
| `NatTable.DBKeyHashTable.Delete` | lightweight-4over6/TI/openwrt_cpe/src/dbkeyhash.c:326-345 | exactly the session found under the upstream or the downstream key goes, and all cross links stay right |
| `NatTable.DBKeyHashTable.LoopDelete` | lightweight-4over6/TI/openwrt_cpe/src/dbkeyhash.c:49-100 | the walk ends despite starting again and does to lifetimes and sessions what the walk on values does: released sessions ran out, each once, others have time left and lost a tick or more for each node in the bucket; exactly one for each node unless a new start took the walk back to the front of a node it had passed, and never so if no session with both nodes in it has 10 seconds or less |
| `NatTable.DBKeyHashTable.Sweep` | lightweight-4over6/TI/openwrt_cpe/src/timerproc.c:63-76 | over all buckets, lifetimes and sessions end as the sweep on values ends: each session goes at most once, exactly if it runs out; a survivor has lost two ticks, and more if and only if a walk over some bucket started again and passed a node of it once more; never so if no session with both nodes in one bucket runs out |
| `NatTable.RestartTakesMore` | lightweight-4over6/TI/openwrt_cpe/src/dbkeyhash.c:84-90 | in a table built by two inserts the walk starts again, and a session that survives has lost four ticks |
| `SessionWalk.WalkFates` | lightweight-4over6/TI/openwrt_cpe/src/dbkeyhash.c:49-100 | any walk on values: what may happen to each session, and that each goes at most once |
| `SessionWalk.CalmWalk` | lightweight-4over6/TI/openwrt_cpe/src/dbkeyhash.c:49-100 | a walk that never starts again takes exactly one tick for each node |
| `SessionWalk.TicksExact` | lightweight-4over6/TI/openwrt_cpe/src/dbkeyhash.c:49-100 | a session that stays has lost more than one tick for each of its nodes if and only if a new start took the walk back to the front of a node of it |
| `SessionSweep.SweepExact` | lightweight-4over6/TI/openwrt_cpe/src/timerproc.c:63-76 | any sweep on values: a session that survives with time left has lost more than one tick for each of its nodes in all buckets if and only if a walk over one of them passed a node of it once more |
| `NatTable.PairedWithout` | lightweight-4over6/TI/openwrt_cpe/src/dbkeyhash.c:143-191 | without the two nodes of a session the cross links of all others stay right |
| `NatTable.SessionDatProc` | lightweight-4over6/TI/openwrt_cpe/src/timerproc.c:40-53 | a positive lifetime loses one tick, and the session is to go exactly if it had time and has none left |
| `WorkQueue.Queue.Add` | lightweight-4over6/TC/user_module/src/thrmgr.c:39-60 | the job goes behind all others; the counter restarts at 1 after an empty queue |
| `WorkQueue.Queue.Pop` | lightweight-4over6/TC/user_module/src/thrmgr.c:62-78 | the oldest job leaves; the counter is not reduced |
| `WorkerPool.StepKeeps` | lightweight-4over6/TC/user_module/src/thrmgr.c:159-260 | every step keeps the counters equal to the workers alive and asleep and every job in its place |
| `WorkerPool.DispatchGrows` | lightweight-4over6/TC/user_module/src/thrmgr.c:222-260 | a dispatch queues its job behind all others, and adds one worker that is about to look for work if and only if no worker sleeps, fewer than the limit are alive and a thread can be started |
| `WorkerPool.WorkerLooks` | lightweight-4over6/TC/user_module/src/thrmgr.c:159-200 | a worker that looks for work takes the oldest job; without one it leaves a pool that is to end, and otherwise sleeps |
| `WorkerPool.StepFates` | lightweight-4over6/TC/user_module/src/thrmgr.c:159-220 | a worker gives up only by timing out or on an empty queue of a pool that is to end, and a job is handled only when the worker that holds it finishes |
| `WorkerPool.RunSafe` | lightweight-4over6/TC/user_module/src/thrmgr.c:39-260 | in every state of every run idle <= alive <= max, each dispatched job is queued, held by one worker or handled, and the pool is freed only when no worker is alive |
| `WorkerPool.OnePlace` | lightweight-4over6/TC/user_module/src/thrmgr.c:159-260 | a dispatched job is in exactly one of these places, and exactly the jobs from the front number on are queued, so jobs leave in order of dispatch |
| `WorkerPool.ExitIsFinal` | lightweight-4over6/TC/user_module/src/thrmgr.c:81-115 | once the exit flag is set it stays set and no job is queued any more |
| `WorkerPool.LeftBehind` | lightweight-4over6/TC/user_module/src/thrmgr.c:243-253 | a pool is freed with jobs in its queue if and only if in some step the last worker not leaving timed out on a queue that was not empty, or a job came while there were only leaving workers or none and no thread was started for it, and no thread was started later |
| `WorkerPool.SleeperMissesJob` | lightweight-4over6/TC/user_module/src/thrmgr.c:176-185 | it happens although every thread starts: the only worker sleeps when the second job comes, and times out |

## Left out

- Locks, interrupts and the unlocked gap inside a create: every operation is one atomic step.
- Failure of memory allocation inside trees, tables and fragment code, and the freeing of memory.
- BPlusTree.BPTree: a node of the tree has its links as a sequence; their circular list is in LinkRing,
  operation by operation, and is not a field of the same node.
- Key buffers of the tree: keys are numbers; `Keys` relates them to byte strings in memcmp order.
- BPlusTree.SpanUnique: is stated for trees without a seam, as a search never meets one.
- Tunnels that are added statically, and two requests of one client at the same time; they bypass the
  pool or the detect step.
- Duplicate fragments and the use of a key before its bucket has timed out: duplicates are counted but
  not kept, so completion is not what it should be then.
- FragTable.ShashCb.Receive: asks that each fragment ends within the reassembly buffer, which the code
  does not check.
- Fragments.PktFragHandle: asks for more than the 20 bytes of a header; with 20 the customer side divides
  by 0, and with fewer the unsigned length wraps round and the copy leaves the buffer.
- PoolScan.Ready: cursors are at multiples of the range, as they are when the range does not change.
- AddrPool.AddrPoolList.constructor: an address range up to the last 32-bit number is left out, as the
  loop would not end.
- Leases.RunSafe: expiry of several tunnels is several steps, in the order of the traversal.
- Delivery.NatHandle: asks for the same, and starts when the session has been found.
- `ip_checksum` and `in_cksum`: whole sums are the specification here, not their loops.
- Port counters of the translator (`tool.c`), its TCP state table, ICMP errors and the TCP reset
  that releases a port twice; the end of a session is one release.
- Translation.NormalPacketHandl: asks for a whole IP header and transport fields, which the code does not
  check, and for TCP, UDP or ICMP, as no other packet gets a session; the 40 bytes of the IPv6 header
  are not stated.
- Liveness of the worker pool: that a job is handled some time; `WorkerPool.LeftBehind` says when none will
  look at it any more.
- Sockets, netlink transport, routing, logging, configuration, the DNS proxy and PCP message parsing.
- `APHash`: an arbitrary function of the key.
