# The NID daemon, its DHCP client and its DNS proxy: a verified model

The system names nodes by 128-bit identifiers (NIDs) and finds them through IPv4 locators. A node
registers its locator with a rendezvous server (RVS); registrations climb a tree of gateways to a core
and leave a next hop at every level; every node keeps a cache of locators. All of this is soft state with
timeouts of 5, 10 and 10 seconds, kept in one hand-written chained hash table. Around it sit a DHCP client
that configures the interface, with its own UDP/IP framing, and a DNS proxy that turns TXT answers into
address records.

The model follows the form of the code: objects and tables that the code updates in place are classes, or
arrays, with frames; every method is proved against a specification function, and the properties of whole
runs are proved about those functions.

| module | models |
|---|---|
| `HashTable`, `LinkedList` | the chained table and the list its enumeration fills, on the heap |
| `SoftState`, `ConnectionMapper`, `CacheRuns` | the locator cache, its handover, and what it answers over whole runs |
| `GatewayTree`, `Gateway`, `Roaming` | routes in a tree of gateways, forwarding, and nodes that move to another tree |
| `DelayedClimb` | the same tree when a registration climbs in messages that take their time |
| `Rendezvous` | the rendezvous server as a plain log, and the age of the locators it leads to |
| `Checksum`, `UdpIp` | the one's-complement checksum and the packets built and checked with it |
| `DhcpOptions`, `DhcpBuilder`, `OptionTable` | options: format, the eight message builders, the table they are parsed into |
| `Lease`, `DhcpClient` | the lease state machine, and the client's globals and state functions that refine it |
| `DnsRewrite` | the query and response rewriting of the DNS proxy |
| `NidMapper`, `GenMask`, `Bits` | the two mapper tables, the guessed route mask, and its bit arithmetic |

## What the proofs show about the code

Some of the expected properties hold only under a condition. In each case the condition is proved exact.

- **Handover.** After `updateCMconf` no earlier locator is handed out again. The new RVS stays reachable at
  its locator *exactly when* the cache held no expired entry under the new RVS's identifier: cleanup lists
  live entries only, and a static write over an existing entry does not pin it (`HandoverServer`). The same
  holds for the new gateway under its own identifier (`HandoverPins`).
- **Lease, silent server.** Alarms are armed one after the other with 32-bit differences. For every T1, T2 and
  lease, `RenewsAt`, `RebindsAt` and `StopsAt` name the seconds at which the client leaves Bound, Renew and
  Rebind (T1, T2 and the lease when these are in order and below 2^31), and the client gives its address up,
  on the interface too, in time *exactly when* it starts to rebind before the lease is over (`SilentSafe`); the code does not
  compare the three. With both timers omitted or zero the parser settles on such timers itself, for every
  lease up to the infinite one (`SettledInOrder`, `OmittedTimersSound`). `MessagesSafe` carries this over runs
  of parsed messages: only acknowledgements, and other replies in Renew, have anything asked of them, and the
  ordinary exchange, with a lease in the offer, is such a run (`OrdinaryExchange`). When the server sets
  one timer only, T1 <= T2 <= lease holds for exactly the leases named in `OneTimerInOrder`.
- **Lease, answered renewal.** Any reply to the request is parsed into the stored options before its type is
  looked at. In Renew, a reply that acknowledges nothing, a DHCP_NAK or another DHCP_OFFER, therefore replaces
  the lease. The client overstays the lease it was granted *exactly when* the stored one outlasts that at the
  second it is read, at once for a DHCP_NAK and when the T2 alarm goes off for any other type
  (`ReplyOverstays`): it is longer than the granted one and less than 2^31 ahead, or more than 2^31 behind.
- **DNS answers and long names.** The response rewriting clears 256 bytes behind the authority header
  (`src/dnshandler.c:285-292`), whatever the record's own length. With a record that fits the 512-byte buffer
  the clearing stays inside *exactly when* the encoded name has at most 211 bytes for an A answer and 199 for
  an AAAA answer (`BehindBuffer`); `Overrun` gives a legal response of 323 bytes for which it does not. The
  proxy then sends as many bytes as it received: the moved authority record is among them in full *exactly
  when* the data installed is no longer than the data it replaces (`SentInFull`).
- **Staleness.** The bound of RVS_TIMEOUT + RVS_UPDATE_TIMEOUT + d is never reached; the oldest age a locator
  can have is two seconds less, and for every d and every locator there is a run that attains it
  (`BoundedStaleness`, `StalenessAttained`).
- **Loop freedom** rests on routes of different levels lapsing together. When a registration reaches the core
  as one step they do (`RunHasNoLapsedChild`). When it climbs in messages that take up to d seconds a hop, a
  packet at or below a live route is delivered *exactly when* every route from the first live one down names
  the node or a child with a live route, and for the whole tree *exactly when* no live route names a child
  without one (`DelayedDelivery`, `AllDeliverExactly`). A child is left without one only within d seconds of
  its route lapsing (`BounceMeansLapsing`, `SettledHasNoDeadChild`), and for every d > 0 there is a run in
  which a packet still bounces in the last of these seconds (`BounceAttained`).
- **`hash_insert`** returns the data just stored when the key is new, although its comment promises NULL
  (`src/hash.c:62-63`); the model follows the code.
- Lease times count from the acknowledgement's arrival (`src/dhcpcd-1.3.22-pl4/client.c:1009`), not from the
  request as section 4.4.5 of RFC 2131 asks; the lease statements are relative to that instant.

## Model

| member | source | states |
|---|---|---|
| HashTable.Hash | src/hash.c:44-57 | the byte loop computes the recursive key hash, in wrapping 32-bit arithmetic |
| HashTable.HashByBit | src/hash.c:44-57 | every bit of the hash is the parity of the key bits that the shifts bring there: each byte moves up once for itself and once for every byte behind it |
| HashTable.HashTable.constructor | src/hash.c:22-36 | an empty table stands for the empty map and satisfies the heap invariant |
| HashTable.HashTable.Walk | src/hash.c:129-144 | the traversal finds the key's bucket, its position in its chain and its predecessor, or proves the key absent |
| HashTable.HashTable.Lookup | src/hash.c:129-144 | agrees with the finite map the buckets stand for |
| HashTable.HashTable.Insert | src/hash.c:66-121 | map update; old data returned, or the new data on a fresh key; at most the key's own chain changes, by one fresh head |
| HashTable.HashTable.Del | src/hash.c:151-200 | map removal and the removed data; only the key's chain changes, by losing exactly its bucket, at head or further down |
| HashTable.HashTable.BucketsDistinct | src/hash.c:66-200 | chains are acyclic and pairwise disjoint: no bucket occurs twice anywhere |
| HashTable.HashTable.SlotFacts | src/hash.c:66-200 | each chain holds only keys that hash to its slot, without duplicates, and each key of the map is in its chain |
| LinkedList.List.Tail | src/llist.c:20-34 | the walk ends at the last node, or at null for an empty list |
| LinkedList.List.Add | src/llist.c:36-56 | the list's items are the old ones followed by the new one |
| ConnectionMapper.ConnectionMapper.NewCMEntry | src/connection_mapper.c:22-43 | a timestamped write of the abstract cache: pinned entries stay, all other keys are untouched |
| ConnectionMapper.ConnectionMapper.StaticCMEntry | src/connection_mapper.c:46-61 | pins a new entry; over an existing one changes the locator and keeps the age |
| ConnectionMapper.ConnectionMapper.GetCMEntry | src/connection_mapper.c:71-107 | answers and updates as the abstract lookup does, asks the server exactly on a miss or for an ageing entry not already queued, and queues just what it asks for ahead of time |
| ConnectionMapper.ConnectionMapper.DelCMEntry | src/connection_mapper.c:109-111 | removes one key of the abstract cache |
| ConnectionMapper.ConnectionMapper.IsQueued | src/rvs_queue_table.c:36-53 | true only for a queued identifier; the query drops a mark it finds too old |
| ConnectionMapper.AsksByAge | src/connection_mapper.c:76-106 | in seconds of age: a pinned entry is never asked for, one of four seconds unless that is under way, and one of five or more, or none, always |
| ConnectionMapper.ConnectionMapper.Refresh | src/connection_mapper.c:80-92 | a request goes out unless one is under way; the identifier is then queued, and no other mark changes |
| ConnectionMapper.ConnectionMapper.HandleResponse | src/control.c:49-59 | a response with a locator takes the identifier out of the queue and writes the cache; one without changes nothing |
| ConnectionMapper.MarkedMeansQueued | src/rvs_queue_table.c:23-53 | over every sequence of queue operations, an identifier is marked if and only if it was queued and since then neither taken out nor found too old by a query |
| ConnectionMapper.ConnectionMapper.Enumerate | src/hash.c:237-255 | the list gains every live entry once and nothing else |
| ConnectionMapper.ConnectionMapper.DelListed | src/connection_mapper.c:113-125 | deleting along the list removes exactly the listed keys, repeated ones included |
| ConnectionMapper.ConnectionMapper.CleanCM | src/connection_mapper.c:113-125 | what is left is exactly the entries that had already expired |
| ConnectionMapper.ConnectionMapper.UpdateCMconf | src/connection_mapper.c:143-161 | the cache becomes the handover of the old one; the four cached globals are the new ones |
| ConnectionMapper.DropKeys | src/connection_mapper.c:113-125 | the keys left after dropping a list are those it does not name, with their data |
| ConnectionMapper.DropListed | src/connection_mapper.c:113-125 | dropping a sound and complete enumeration leaves precisely the expired entries |
| CacheRuns.EntryFromLog | src/connection_mapper.c:22-61 | after any run from the empty cache the entry of an identifier is what the log since its last deletion says |
| CacheRuns.CacheIsLog | src/connection_mapper.c:71-107 | every lookup answers as a plain log does: the pinned locator, else the current one if the last timestamped write is under 5 s old, else the gateway; and it finds an entry in the first two cases only |
| CacheRuns.RunHandsOut | src/connection_mapper.c:71-107 | along any run, entries that can be handed out carry a locator that was allowed at the start or written since |
| CacheRuns.HandoverForgets | src/connection_mapper.c:143-161 | after a handover no locator stored before it is ever handed out, over every later run |
| CacheRuns.HandoverResolvesToGateway | src/connection_mapper.c:143-161 | until a new write, every identifier but the new server resolves to the new gateway |
| CacheRuns.StaysAtGateway | src/connection_mapper.c:71-107 | along any run an identifier nobody writes can only be found at the gateway |
| CacheRuns.PinnedStays | src/connection_mapper.c:22-61 | a pinned entry survives any run of lookups and timestamped writes |
| CacheRuns.HandoverServer | src/connection_mapper.c:143-161 | the new server keeps its locator if and only if no expired entry was cached under its identifier |
| CacheRuns.HandoverPins | src/connection_mapper.c:143-161 | over every later run of lookups and timestamped writes the new gateway is found at its locator, and the new server at its own, if and only if no expired entry was cached under that identifier |
| GatewayTree.PropagateAt | src/gwc.c:82-116 | a registration writes the routes from its gateway up to the core, each naming the child towards the node, and no other table |
| GatewayTree.StaticHop | src/nid_routing.c:413-418 | a packet for an identifier with a static route goes where the route says |
| GatewayTree.NextConsistent | src/nid_routing.c:369-427 | every step, registrations of gateways and pinned identifiers included, keeps each ordinary route equal to what the latest registration below that gateway says, or absent once that has expired |
| GatewayTree.LatestBelow | src/gwc.c:21-41 | the child a route points to has the same latest registration |
| GatewayTree.HopDown | src/nid_routing.c:137-146 | a gateway that knows a live registration sends the packet to the node or to a child that knows the same one |
| GatewayTree.HopUp | src/nid_routing.c:137-146 | any other gateway below the core sends it to its parent |
| GatewayTree.Descent | src/nid_routing.c:340-348 | from a gateway that knows the node the packet reaches the registered locator in exactly as many hops as there are levels |
| GatewayTree.Climb | src/nid_routing.c:340-348 | before that it climbs one level a hop to the first gateway that knows |
| GatewayTree.Delivery | src/nid_routing.c:340-348 | loop-free delivery from anywhere in the tree, with the exact number of hops, to a locator registered less than GATEWAY_TIMEOUT ago |
| GatewayTree.Topology.LevelsFromTop | src/gwc.c:82-116 | the distance to a gateway below counts the same from the child towards it |
| Gateway.Gateway.NewRTEntry | src/nid_routing.c:369-389 | a timestamped write of the routing table |
| Gateway.Gateway.StaticRTEntry | src/nid_routing.c:391-406 | a static write of the routing table |
| Gateway.Gateway.GetRTEntry | src/nid_routing.c:408-427 | an entry leaves the table if and only if it is the one asked for, is not static and is ten seconds old or more; a live one without locator stays but is a miss |
| Gateway.Gateway.UpdateRT | src/nid_routing.c:437-443 | the route to the old gateway goes, static or not, no other does, and the new gateway is adopted |
| Gateway.Gateway.HandleRegistry | src/gwc.c:21-41 | the route is recorded and the message goes up with this gateway's locator and the next gateway as its destination, all else kept |
| Gateway.Gateway.HandleRegistryAtCore | src/gwc.c:44-79 | a node at home clears its registry address; any other is announced to its home core, with every field of the notice |
| Gateway.Gateway.HandleRedirectCore | src/control.c:186-189 | the home core records the visited core's locator |
| Gateway.Gateway.GetRegistry | src/gwc.c:146-160 | an entry with address 0 counts as none |
| Gateway.Gateway.ForwardGw | src/nid_routing.c:137-146 | the locator chosen is the network model's next hop, and at most the expired route asked for leaves the table |
| Gateway.Gateway.ForwardCore | src/nid_routing.c:218-231 | route, then registry, then the outside table, else dropped: the network model's next hop |
| Roaming.RegistryStep | src/gwc.c:129-144 | a registry entry and the last event its core handled about the node move together |
| Roaming.RunConsistent | src/gwc.c:21-79 | over every run, routes follow the registrations and registries follow the events at the core |
| Roaming.RunDelivers | src/nid_routing.c:340-348 | in every reachable network a packet for a node with a live registration is delivered, in an exact number of hops, to the latest one the first knowing gateway has; from the core, to the latest of all |
| Roaming.StaticRoutes | src/nid_routing.c:391-427 | over every run a static route stays, through registrations, lookups and any length of time, until it is taken back, and packets go where its last static write says |
| Roaming.CoreUsesRegistry | src/nid_routing.c:211-231 | a core without a live route forwards to the registry address if and only if the last it handled about the node was another core's notice, and only otherwise asks the outside table |
| Roaming.VisitSendsNotice | src/gwc.c:63-76 | a registration at a visited core leaves a notice for the home core there and nothing in the registry; one at home clears the registry |
| Roaming.RoamingDelivery | src/nid_routing.c:211-231 | once home routes have aged out, a packet anywhere in the home tree climbs to the home core, crosses to the visited core and descends to the node, whatever the outside table says |
| Roaming.HomeAgain | src/gwc.c:63-66 | after a registration at home the registry address is 0 until another notice is handled, over every run |
| Roaming.LapsedChildBounces | src/nid_routing.c:137-146 | at one instant, a live route to a child without one makes a packet bounce for any number of hops |
| Roaming.RunHasNoLapsedChild | src/gwc.c:21-41 | in every reachable network the child a live route names has a live route of the same age |
| Roaming.RegistryWrite | src/gwc.c:63-66 | what one step leaves in one registry entry: the notice's locator, 0 after a homecoming, else what it was |
| DelayedClimb.RunInv | src/gwc.c:21-41 | over every run with late, lost, repeated or reordered registrations, a route names the node itself or a child that handled one at most the delay before |
| DelayedClimb.StaticRoutes | src/nid_routing.c:391-427 | the same when registrations climb with delays |
| DelayedClimb.LiveHop | src/nid_routing.c:408-427 | a live route leads to a recent registration, or to a child whose route is live or lapsed less than the delay ago |
| DelayedClimb.BounceMeansLapsing | src/nid_routing.c:137-146 | a packet bounces between a gateway and its child only within the delay after the child's route lapsed |
| DelayedClimb.DescentDelivers | src/nid_routing.c:340-348 | where all routes on the way down are live a packet descends, one level a hop, to a recent registration |
| DelayedClimb.DescentLoops | src/nid_routing.c:340-348 | where one of them names a child without a live route it is not delivered in any number of hops |
| DelayedClimb.AllDeliverExactly | src/nid_routing.c:340-348 | every gateway with a live route delivers if and only if no live route names a child whose own is not live |
| DelayedClimb.SettledHasNoDeadChild | src/nid_routing.c:408-427 | outside the delay after a route lapses no live route names such a child |
| DelayedClimb.DelayedDelivery | src/nid_routing.c:340-348 | on every run, a packet at or below a live route is delivered if and only if the routes from the first live one down lead to the node; then without loop, in boundedly many hops, to a locator registered less than GATEWAY_TIMEOUT ago, and always so outside the delay after a lapse |
| DelayedClimb.BounceAttained | src/gwc.c:82-116 | for every delay above 0 and every gateway with a parent there is a run after which a packet bounces in the last second allowed |
| Rendezvous.ServerIsLog | src/rvs.c:112-136 | after any registrations and queries the server answers with the last registration of the identifier while that is less than RVS_TIMEOUT old, and with 0 from then on |
| Rendezvous.Server.GetEntry | src/rvs.c:122-136 | the locator if registered within RVS_TIMEOUT, else 0; an entry leaves the table if and only if it is the one asked for and is ten seconds old or more |
| Rendezvous.Server.Handle | src/rvs.c:60-83 | the reply is the request with its type and, for a query, its locator replaced; other messages change nothing |
| Rendezvous.BackedStep | src/rvs.c:60-78 | every response with a locator stems from a registration less than RVS_TIMEOUT old when it was sent |
| Rendezvous.CacheStep | src/control.c:49-59 | every cached locator that came in a response was written at most d seconds after that was sent |
| Rendezvous.RunInv | src/rvs.c:60-78 | both hold in every run of server, messages and all caches |
| Rendezvous.BoundedStaleness | src/connection_mapper.c:71-107 | a locator handed out that came in a response was registered for that identifier less than RVS_TIMEOUT + RVS_UPDATE_TIMEOUT + d seconds before |
| Rendezvous.StalenessAttained | src/rvs.c:122-136 | for every d there is a run whose only registration is exactly as old as the bound allows |
| Checksum.InCksum | src/dhcpcd-1.3.22-pl4/udpipgen.c:27-48 | 0xffff minus the representative of the word sum in 1..0xffff, 0 for a zero sum; the signed accumulator never overflows up to 65536 bytes |
| Checksum.RepUnique | src/dhcpcd-1.3.22-pl4/udpipgen.c:27-48 | that representative modulo 0xffff is the only one in its range |
| Checksum.TwoFolds | src/dhcpcd-1.3.22-pl4/udpipgen.c:43-47 | two folds of any non-negative 31-bit sum suffice |
| Checksum.WordSumAppend | src/dhcpcd-1.3.22-pl4/udpipgen.c:27-48 | the word sum is additive over parts of even length |
| Checksum.WordSumBound | src/dhcpcd-1.3.22-pl4/udpipgen.c:27-48 | a buffer's word sum is at most 0xffff for each of its words, which keeps the signed accumulator in range |
| Checksum.PaddedSum | src/dhcpcd-1.3.22-pl4/udpipgen.c:39-44 | a buffer of odd length sums as with a zero byte behind it, the padding of section 2 of RFC 1071 |
| UdpIp.UdpIp.Udpipgen | src/dhcpcd-1.3.22-pl4/udpipgen.c:50-94 | the buffer becomes the packet of RFC 791 and RFC 768 for its payload, what lies behind it is untouched, the identification advances modulo 2^16 |
| UdpIp.UdpIp.LayUdpHeader | src/dhcpcd-1.3.22-pl4/udpipgen.c:57-77 | the UDP header carries the checksum over pseudo-header and datagram, a zero sum sent as 0xffff |
| UdpIp.Udpipchk | src/dhcpcd-1.3.22-pl4/udpipgen.c:96-126 | the verdict is that of header sum and pseudo-header sum, with or without IP options; without options, anything but -2 leaves the packet unchanged; a checked and accepted packet has its first 20 bytes back, and the datagram is never touched |
| UdpIp.OverlaySumAt | src/dhcpcd-1.3.22-pl4/udpipgen.c:96-126 | summing the overlaid, possibly relocated header and the datagram gives the pseudo-header sum |
| UdpIp.FieldCompletes | src/dhcpcd-1.3.22-pl4/udpipgen.c:50-94 | the field sent completes every positive sum to a multiple of 0xffff and is never zero |
| UdpIp.HeaderAccepted | src/dhcpcd-1.3.22-pl4/udpipgen.c:78-93 | the IP header of every generated packet passes its check |
| UdpIp.ArrivedSum | src/dhcpcd-1.3.22-pl4/udpipgen.c:96-126 | the checker's sum over generated headers differs from a complete one just by the difference of the payload sums |
| UdpIp.PayloadVerdict | src/dhcpcd-1.3.22-pl4/udpipgen.c:96-126 | an arriving payload is accepted if and only if its word sum agrees with that of the one sent, modulo 0xffff; otherwise the verdict is -2 |
| UdpIp.GeneratedPasses | src/dhcpcd-1.3.22-pl4/udpipgen.c:50-126 | every generated packet passes the checker |
| UdpIp.WordTampering | src/dhcpcd-1.3.22-pl4/udpipgen.c:96-126 | changing one aligned payload word gives -2 unless 0x0000 and 0xffff were swapped |
| UdpIp.LastByteTampering | src/dhcpcd-1.3.22-pl4/udpipgen.c:96-126 | changing the last byte of a payload of odd length gives -2, always |
| UdpIp.HeaderTampering | src/dhcpcd-1.3.22-pl4/udpipgen.c:106-107 | changing one word of the IP header other than the first gives -1, and only that does, unless 0x0000 and 0xffff were swapped |
| UdpIp.UncheckedAccepted | src/dhcpcd-1.3.22-pl4/udpipgen.c:118 | a datagram sent without a checksum is accepted whatever it carries |
| UdpIp.PacketLayout | src/dhcpcd-1.3.22-pl4/udpipgen.c:57-93 | where RFC 791 and RFC 768 have every field of a generated packet |
| UdpIp.SumOfStandard | src/dhcpcd-1.3.22-pl4/udpipgen.c:61-71 | the sum behind the UDP checksum is that of the pseudo-header of RFC 768 and the datagram |
| UdpIp.ReceivedSumOfStandard | src/dhcpcd-1.3.22-pl4/udpipgen.c:119-123 | so is the sum the checker forms of a packet that arrives |
| DhcpOptions.DecodeEncode | src/dhcpcd-1.3.22-pl4/client.c:143-167 | decoding what was printed, wherever it stands and whatever follows the end mark, gives back exactly the options meant |
| DhcpOptions.DecodeByBytes | src/dhcpcd-1.3.22-pl4/client.c:143-167 | the format of section 2 of RFC 2132, byte by byte: pad, end mark, and code, length and value |
| DhcpOptions.EncodeAppend | src/dhcpcd-1.3.22-pl4/buildmsg.c:47-128 | printing a list is printing its parts one behind the other |
| DhcpBuilder.ClientIDsetup | src/dhcpcd-1.3.22-pl4/client.c:456-476 | the identifier encoded in advance is the printed client-identifier option |
| DhcpBuilder.Writer.Put | src/dhcpcd-1.3.22-pl4/buildmsg.c:47-128 | one more option is complete, inside the 312-byte area |
| DhcpBuilder.Writer.Finish | src/dhcpcd-1.3.22-pl4/buildmsg.c:120-128 | with identifier and end mark the area decodes to the options written |
| DhcpBuilder.BuildDhcpDiscover | src/dhcpcd-1.3.22-pl4/buildmsg.c:47-128 | behind the cookie the parser reads back exactly the options a DISCOVER is meant to carry, under each code what the table of messages says, for every client state within the declared limits |
| DhcpBuilder.BuildDhcpRequest | src/dhcpcd-1.3.22-pl4/buildmsg.c:130-215 | the same for a request after an offer |
| DhcpBuilder.BuildDhcpRenew | src/dhcpcd-1.3.22-pl4/buildmsg.c:217-290 | the same for a renewal |
| DhcpBuilder.BuildDhcpRebind | src/dhcpcd-1.3.22-pl4/buildmsg.c:292-363 | the same for a rebinding |
| DhcpBuilder.BuildDhcpReboot | src/dhcpcd-1.3.22-pl4/buildmsg.c:365-443 | the same for a request of the cached address |
| DhcpBuilder.BuildDhcpRelease | src/dhcpcd-1.3.22-pl4/buildmsg.c:445-479 | the same for a release |
| DhcpBuilder.BuildDhcpDecline | src/dhcpcd-1.3.22-pl4/buildmsg.c:482-524 | the same for a decline |
| DhcpBuilder.BuildDhcpInform | src/dhcpcd-1.3.22-pl4/buildmsg.c:527-591 | the same for an inform |
| DhcpBuilder.MeantByCode | src/dhcpcd-1.3.22-pl4/buildmsg.c:47-591 | the table of the eight messages by option code: which value stands, once, under each code, and that nothing stands under any other |
| OptionTable.OptionTable.StoreOption | src/dhcpcd-1.3.22-pl4/client.c:149-164 | one slot takes the value, in a buffer that is long enough; no other slot changes |
| OptionTable.OptionTable.ParseOptions | src/dhcpcd-1.3.22-pl4/client.c:143-167 | every slot ends on the last non-empty value in the message, else on its old value; a non-zero length always has a buffer at least that long |
| OptionTable.LastValueMeans | src/dhcpcd-1.3.22-pl4/client.c:149-164 | that value stands in some option, and no later option of the code has any |
| OptionTable.OptionTable.FillDefaults | src/dhcpcd-1.3.22-pl4/client.c:268-355 | server identifier, name server, mask and broadcast address end up present, each from the ones before it when the server left it out |
| OptionTable.NaturalBroadcast | src/dhcpcd-1.3.22-pl4/client.c:341-347 | with the natural mask of a class the default broadcast address keeps the network bytes and sets all others |
| OptionTable.HostBitsByBit | src/dhcpcd-1.3.22-pl4/client.c:341-347 | for every mask: a bit of the broadcast address is the address's where the mask has it, and set elsewhere |
| OptionTable.ClassByOctet | src/dhcpcd-1.3.22-pl4/client.c:296-331 | the class of an address by its first octet, for the default mask and for the guessed route mask alike |
| OptionTable.OptionTable.Release | src/dhcpcd-1.3.22-pl4/client.c:478-484 | every slot is empty afterwards |
| OptionTable.OptionTable.SettleTimers | src/dhcpcd-1.3.22-pl4/client.c:375-442 | lease, T1 and T2 end up present with length 4: zero or missing ones are the client's own lease, one half and seven eighths |
| OptionTable.OptionTable.ParseDhcpMsgRecv | src/dhcpcd-1.3.22-pl4/client.c:113-446 | the whole table after one message: values, defaults, and timers that depend only on this message, the stored lease and the client's own lease, never on old timers |
| OptionTable.SettledInOrder | src/dhcpcd-1.3.22-pl4/client.c:397-442 | with both timers omitted or zero, T1 <= T2 <= lease for every lease |
| OptionTable.OneTimerInOrder | src/dhcpcd-1.3.22-pl4/client.c:397-442 | exactly which leases keep that order when the server sets one timer only |
| OptionTable.TimersInForce | src/dhcpcd-1.3.22-pl4/client.c:375-442 | what lease, T1 and T2 come from, by option code and length, with every default |
| Lease.StepSafe | src/dhcpcd-1.3.22-pl4/client.c:1050-1125 | every step keeps the next deadline within the lease, for every 32-bit lease, if acknowledgements carry sound timers and no other reply to a renewal outlasts the lease |
| Lease.LeaseSafety | src/dhcpcd-1.3.22-pl4/client.c:1050-1125 | over every such run, however long, the client is in Bound, Renew or Rebind only within the lease last acknowledged |
| Lease.InterfaceFollowsLease | src/dhcpcd-1.3.22-pl4/client.c:1168-1185 | over every run, whatever the replies, the interface has an address only while a lease is held |
| Lease.OmittedTimersSound | src/dhcpcd-1.3.22-pl4/client.c:397-442 | a message without the two timers is parsed into sound ones, for every lease up to the infinite one |
| Lease.MessagesSafe | src/dhcpcd-1.3.22-pl4/client.c:113-446 | over every run of parsed messages in which acknowledgements omit the timers or send sound ones, and other replies to a renewal name no lease that outlasts the granted one, the address is held only within the lease last acknowledged |
| Lease.OrdinaryExchange | src/dhcpcd-1.3.22-pl4/client.c:956-1048 | an offer and an acknowledgement that both name the lease form such a run, and it binds the address offered |
| Lease.BoundByAcknowledgement | src/dhcpcd-1.3.22-pl4/client.c:726-750 | the bound state is entered only on a BOOTREPLY with the request's xid that acknowledges, and a new binding configures the address asked for |
| Lease.OthersIgnored | src/dhcpcd-1.3.22-pl4/client.c:726-734 | a message that is no BOOTREPLY, of another kind of hardware or for another request is as if it had not come |
| Lease.AcknowledgementBinds | src/dhcpcd-1.3.22-pl4/client.c:997-1062 | an acknowledgement binds a client that waits for one, with its alarm at T1, if the address is free and can be configured |
| Lease.RefusalMovesOn | src/dhcpcd-1.3.22-pl4/client.c:737-749 | where a refusal takes a client, by the state it meets |
| Lease.StartsOverFresh | src/dhcpcd-1.3.22-pl4/client.c:956-970 | however a client comes to look for a server, it does so with an empty table and a request of its own |
| Lease.ForgottenUntilOffered | src/dhcpcd-1.3.22-pl4/client.c:1018-1029 | after an address was found in use none is asked for until an offer is taken up |
| Lease.NewRequestNewXid | src/dhcpcd-1.3.22-pl4/client.c:1064-1125 | once an alarm has sent a new request, only replies to that one count |
| Lease.StartupGivesUp | src/dhcpcd-1.3.22-pl4/signals.c:106-127 | without any server the client asks for its cached address for one time-out, looks for an offer for another, and ends |
| Lease.AddressSource | src/dhcpcd-1.3.22-pl4/client.c:956-1048 | over every run, whatever address is configured came from the cache or from an offer taken up |
| Lease.AddressKept | src/dhcpcd-1.3.22-pl4/client.c:1064-1125 | through any number of renewals and rebindings the configured address stays, whatever the acknowledgements name |
| Lease.SilentTimeline | src/dhcpcd-1.3.22-pl4/signals.c:84-128 | with a silent server the client leaves Bound, Renew and Rebind exactly at the three instants its timers lead to, and the address leaves the interface at the last, second by second, for all 32-bit timers |
| Lease.CourseInOrder | src/dhcpcd-1.3.22-pl4/client.c:1050-1103 | those instants are T1, T2 and the end of the lease when T1 <= T2 <= lease < 2^31 |
| Lease.SilentSafe | src/dhcpcd-1.3.22-pl4/client.c:1050-1125 | then it gives its address up in time if and only if it starts to rebind before the lease is over, for all 32-bit timers |
| Lease.ReplyCourse | src/dhcpcd-1.3.22-pl4/client.c:737-750 | after any reply to a renewal that acknowledges nothing, when exactly the address is given up |
| Lease.ReplyOverstays | src/dhcpcd-1.3.22-pl4/client.c:1084-1103 | for every such reply, refusal or not, the address stays on the interface past the granted lease if and only if the stored lease outlasts it at the second it is read |
| DhcpClient.DhcpClient.MainLoop | src/dhcpcd-1.3.22-pl4/dhcpcd.c:371-401 | running state functions until one waits ends where the state machine says |
| DhcpClient.SteppedFrom | src/dhcpcd-1.3.22-pl4/client.c:1050-1125 | each state function leaves the end of the loop as it was, and is that end if it waits |
| DhcpClient.DhcpClient.DhcpReceive | src/dhcpcd-1.3.22-pl4/client.c:725-750 | filter on the header, parse the option area into the client's table and dispatch on the type: together the state machine's treatment of the parsed message, and what is then in the table, in every state |
| DhcpClient.DhcpClient.Acknowledged | src/dhcpcd-1.3.22-pl4/client.c:997-1048 | what follows an acknowledgement: bound, declined or stopped |
| DhcpClient.DhcpClient.Refused | src/dhcpcd-1.3.22-pl4/client.c:1064-1125 | what follows a refusal, by the state it meets |
| DhcpClient.DhcpClient.SigHandler | src/dhcpcd-1.3.22-pl4/signals.c:84-128 | the alarm resumes the interrupted state as the state machine says |
| DhcpClient.DhcpClient.DhcpStop | src/dhcpcd-1.3.22-pl4/client.c:1168-1200 | the interface loses its address, every stored option is freed, and the client starts over |
| DnsRewrite.ModifyDnsQuery | src/dnshandler.c:21-37 | only the question's type changes, and only for an address question, whose type is returned |
| DnsRewrite.SentQueryMeans | src/dnshandler.c:21-37 | types 1 and 28 go out as 16; every other type, and every other byte, as it came |
| DnsRewrite.RcodeOfFlags | src/dnshandler.c:200 | the response code is the lowest four bits of the 16-bit flags |
| DnsRewrite.BuildDnsResponse | src/dnshandler.c:104-304 | for every layout, with the memory behind the buffer taken along: byte for byte the rewritten message; otherwise -1 and at most the question's type restored |
| DnsRewrite.QuestionRestored | src/dnshandler.c:21-304 | for every query and every rewritten response to what was sent on for it, the question section is the client's own again and the answer has the type asked for |
| DnsRewrite.RecordKept | src/dnshandler.c:104-304 | header, names, class and TTL keep their places, 4 or 16 address bytes stand behind the matching length, and the authority record follows unchanged |
| DnsRewrite.BehindBuffer | src/dnshandler.c:285-292 | which bytes behind the buffer are cleared, and that none is if and only if the name has at most 211 bytes for A and 199 for AAAA |
| DnsRewrite.Overrun | src/dnshandler.c:285-292 | a legal response of 323 bytes to a question for a name of 200 bytes whose rewriting clears a byte behind the buffer |
| DnsRewrite.SentInFull | src/dnshandler.c:668-674 | of the bytes the proxy sends, the moved authority record is held in full if and only if the data installed is no longer than the data replaced, as it is for an answer of two identifiers |
| DnsRewrite.Assembled | src/dnshandler.c:104-304 | a buffer is a message's bytes as soon as every part stands at its offset |
| DnsRewrite.Offsets | src/dnshandler.c:104-170 | where every part of a message stands, as the offset arithmetic has it |
| NidMapper.CopyNid2Nid32 | src/configuration.c:606-618 | copying four bytes and overwriting the first derives the 32-bit key |
| NidMapper.LoopNid2Nid32 | src/dnshandler.c:550-559 | the base-256 loop derives the same key |
| NidMapper.Mapper.NewNMEntry32 | src/nid_mapper.c:37-52 | one entry of the 32-bit table is set |
| NidMapper.Mapper.NewNMEntry | src/nid_mapper.c:19-34 | both tables record the registration |
| NidMapper.Mapper.RegisterResolved | src/dnshandler.c:550-565 | the proxy's paired calls have the effect of one registration |
| NidMapper.Mapper.UpdateNM | src/nid_mapper.c:160-167 | only the zero identifiers are cleared, then the DNS server is registered under its core |
| NidMapper.TablesFollowRun | src/nid_mapper.c:19-52 | after any run each table holds the last registration for its key |
| NidMapper.TablesAgree | src/nid_mapper.c:19-52 | every non-zero identifier registered is found under its 32-bit key, with the latest identifier of the same last three bytes and that identifier's current gateway |
| NidMapper.UpdateClearsZero | src/nid_mapper.c:160-167 | an update clears the zero identifiers of both tables, and under keys no identifier derives only presets are ever found |
| GenMask.GetGenMask | src/dhcpcd-1.3.22-pl4/dhcpconfig.c:117-137 | terminates with 2^32 - 2^k for the largest k, up to the class's host width, whose power divides the address |
| Bits.LowOnes | src/dhcpcd-1.3.22-pl4/dhcpconfig.c:135 | masking with k low ones is the remainder modulo 2^k |

## Left out

- Byte order: the host is little-endian, as the platform the daemon was written for.
- Threads: every table operation is one step; the code takes no locks. In `GatewayTree` and `Roaming` a registration climbs to the core as one step; `DelayedClimb` has one step a gateway.
- `malloc` failure, the data that a replaced entry leaks, and `free_hash_table`.
- The 32-bit copy of the hash table and the FQDN cache's copy: the same code with another key type, which is a parameter of `HashTable`.
- The tables of gateway, server and mapper are map values with the same operations; their refinement by the chained table is proved once, in `HashTable` and `ConnectionMapper`.
- ConnectionMapper.ConnectionMapper.IsQueued: compares the two microsecond fields only, as `src/rvs_queue_table.c:43` does, so it claims no duration; both are parameters.
- Roaming.RoamingDelivery: speaks of registrations that name a home core; the update sent at a handover leaves that field zero (`src/mobility.c:75-85`).
- Roaming.RunDelivers: says nothing about packets for the identifiers in `pins`, those with static routes, which `StaticRoutes` covers hop by hop, and the gateways' own; both register in the model as in the code, the latter from their own locators.
- GatewayTree.Delivery: the packet of a gateway that is itself the sender consults its connection cache first (`src/nid_routing.c:115`); only routing of packets in transit is modelled.
- The distributed hash table behind the cores is a parameter of the forwarding decision.
- Sockets, select loops, netlink, ioctl, file output and the configuration file; the messages that arrive are arguments (an offer without an address counts as offering the one asked for), the clock is a parameter that never runs backwards.
- ARP probing and interface configuration are yes-or-no inputs of `Lease`; Ethernet, token-ring and BOOTP header fields of the builders are not modelled.
- OptionTable.OptionTable.ParseDhcpMsgRecv: asks for a well-formed option area with option 53, and for server identifiers and masks of at least four bytes; it leaves out the option counter and the notification sent to the daemon. Option buffers are sequences, so aliasing of freed buffers is not captured.
- Lease.LeaseSafety: asks each message for what `SilentSafe` and `ReplyOverstays` show to be exact for that message followed by silence.
- The second DISCOVER, the inform exchange, and the `sleep` after a binding, which an alarm always interrupts first.
- DhcpBuilder.ClientIDsetup: identifiers longer than their buffer are excluded, as is a class identifier that `snprintf` would cut.
- DnsRewrite.BuildDnsResponse: one answer and one authority record with two-byte owner names, as the code assumes, an authority of at most 256 bytes, the size of the buffer it is copied through (`src/dnshandler.c:108-109`), and enough memory behind the message buffer for what is written; `analyse_dns_response`, `get_nids` and the textual parsing are left out.
- NidMapper.TablesFollowRun: the presets of the 32-bit table are arbitrary.
- OpenDHT calls, Diffie-Hellman examples, the GUI and scripts.
