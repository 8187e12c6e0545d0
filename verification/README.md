# Verification of the ryu_ldn_nx core

This project models the parts of the ryu_ldn_nx sysmodule in which state is kept over many calls and proves
what those parts promise. Code that changes objects and buffers in place is modelled by classes, arrays and
loops; each method is proved against a specification on plain values, and the main theorems are about those
specifications: over every input, every iteration order of the socket map, and every run.

`dafny verify dfyconfig.toml` checks everything.

## The modules

| module | what it is about |
|---|---|
| `BsdTypes` | addresses in network byte order, protocols, error codes |
| `Ring` | circular arrays as sequences: push, drop-oldest, compaction in place |
| `PortPool`, `PortLaws`, `PoolRuns` | the ephemeral port allocator, which port it lends, and its reuse order over runs |
| `ProxySocket`, `SocketRuns`, `SocketLaws` | one socket with its 64-slot receive ring and event, all interleavings of its steps, and which bytes a reader gets |
| `Network`, `NetworkRuns` | registry, routing, pending ring and port pool as one state; what every operation keeps |
| `Filters`, `RoutingLaws`, `PendingLaws` | who receives a datagram, that echoes reach nobody, and what bind and close do to waiting packets, in addresses, bytes and clock values |
| `Ledger`, `PortOwnership`, `PortWitnesses`, `BindOrder` | packet conservation, port ownership with concrete losses, and early against late arrival, over runs |
| `Manager`, `BsdService` | the manager object with its in-place walks, and the service calls that bind sockets |
| `SelectPoll`, `ReadinessLaws` | the readiness answers that the service gives without the real socket service, bit by bit |
| `LogBuffer` | the ring of log messages and its truncating join |
| `NodeUpdates` | connect and disconnect reports between network queries |
| `PacketRegion`, `LdnProxyBuffer` | packets of varying size in a wrapping byte region |
| `CStrings`, `Lines` | C strings and lines of text |
| `WhitelistText`, `WhitelistLaws`, `SortedIds`, `GameWhitelist` | the game whitelist: what a line denotes, chunked reading, sorting, lookup |
| `ConfigText`, `ConfigLaws` | what a configuration line means, character by character |
| `ConfigFormat`, `ConfigWriter` | the printer and its bounded buffer |
| `ConfigLoading`, `ConfigAgreement`, `LineBuffer`, `ConfigLoader` | the two loaders, when they agree, and exactly when they hand on the same lines |
| `ConfigRoundTrip`, `ConfigFgetsRoundTrip` | the round trip through either loader |

Conventions: the clock is a parameter `now`; the iteration order of the unordered socket map is a parameter
`order`, any permutation of its keys; `strtoul` works on a 64-bit `unsigned long`; addresses are integers,
and masks are written with `/` and `%`. A public operation of the manager is one atomic step. In the
interleavings of one socket a blocked `RecvFrom` is three steps (the section that finds nothing, the return
of the wait, the section after it), and `Close` is two.

## Where the code differs from what is written about it

- `ephemeral_port_pool.hpp:83-84` says that the search avoids rapid reuse of freed ports. It does so exactly
  when no other free port lies behind the released one in search order, and over runs with `ReleaseAll`
  exactly when the other free ports are lower as well (`PoolRuns.ReuseWaitsExactlyWhenHintPast`,
  `PoolRuns.ReuseWaitsExactlyWhenLast`, `PoolRuns.ReleasedPortCanJumpTheQueue`).
- `bsd_mitm_service.cpp:1273-1298` claims a port before it binds and does not release it when the bind fails
  because the descriptor is bound already (`PortWitnesses.SecondBindLeaks`).
- `bsd_mitm_service.cpp:1245-1289` leaves a socket behind when the port is refused, and `bsd_mitm_service.cpp:877-887`
  does not close it, the descriptor not being marked as a proxy. Reused with the other protocol, the
  descriptor claims in one pool for a socket that counts in the other, so a port is lost and another one can
  be shared (`PortWitnesses.ReusedDescriptorMixesPools`). These two kinds of bind are the only steps by which
  a port is lost (`PortOwnership.PortsLeakExactlyOnRebind`), and the second kind the only one by which
  ownership breaks (`PortOwnership.OwnershipKeptExactly`).
- `proxy_socket.hpp:311` documents 0 for a closed connection and an error otherwise, but `proxy_socket.cpp:300-309`
  answers Again to a blocking read that is woken by Shutdown or Close (`SocketRuns.ShutdownAnswersAgain`,
  `SocketRuns.ShutdownAloneAnswersAgain`), that finds the event still signalled by an earlier Shutdown(Write)
  (`SocketRuns.StaleSignalAnswersAgain`, `SocketRuns.ShutWriteLeavesASignal`), or whose packet another reader
  takes first (`SocketRuns.WokenReaderCanFindNothing`): exactly when nothing is left to read
  (`SocketRuns.AgainExactly`), and never otherwise (`SocketRuns.UndisturbedReadIsAnswered`).
- `proxy_socket_manager.cpp:28-45` and `655-658` judge limited broadcast and multicast differently, so such a
  packet can be lost to a socket on a specific address if it comes before the bind (`Network.RulesAgree`,
  `BindOrder.WaitingCommutesExactly`, `BindOrder.BroadcastBeforeBindIsLost`).
- `ldn_proxy_buffer.cpp:77-90` does not compare the packet size with the room below the read position once
  the region has wrapped (`PacketRegion.WriteApartExactly`, `PacketRegion.UnguardedWriteCorrupts`).
- The default values listed in `config.hpp:291-305` are not the constants of `config.hpp:122-167`; the model
  has the constants (`ConfigText.DefaultConfig`).
- The two `load_config` implementations can differ on carriage returns inside a line and on lines of more than
  511 characters (`ConfigAgreement.SameLinesExactlyForCr`, `ConfigAgreement.SameLinesExactlyForLength`,
  `ConfigRoundTrip.LoneCrChangesTheHost`, `ConfigRoundTrip.LongLineChangesTheHost`).

## Model

| member | source | states |
|---|---|---|
| BsdTypes.BSwap32Involution | sysmodule/source/bsd/bsd_types.hpp:171-173 | Swapping the bytes of an address twice gives the address back. |
| BsdTypes.SockAddrRoundTrip | sysmodule/source/bsd/bsd_types.hpp:163-173 | GetAddr and GetPort recover the host-order address and port that were stored in network order. |
| BsdTypes.AddressInNetworkOrder | sysmodule/source/bsd/bsd_types.hpp:163-173 | Octet by octet: the address a.b.c.d in host order is stored with its octets reversed, and read back as a.b.c.d. |
| BsdTypes.PortInNetworkOrder | sysmodule/source/bsd/bsd_types.hpp:163-165 | The two bytes of a port are stored in reverse, and read back in order. |
| BsdTypes.LdnNetwork | sysmodule/source/bsd/bsd_types.hpp:62-66 | An address belongs to the LDN network exactly when it is 10.114.x.y. |
| PortPool.SearchFrom | sysmodule/source/bsd/ephemeral_port_pool.cpp:53-70 | The search finds, of the free ports it has not passed, the one with the least distance from the hint; it finds none exactly when there is none. |
| PortPool.AllocateIsNearestFree | sysmodule/source/bsd/ephemeral_port_pool.cpp:47-71 | An allocation takes the free index with the least (index - hint) mod 16384 and moves the hint behind it; it fails exactly when every index is held, and then changes nothing. |
| PortPool.AllocatePortMeaning | sysmodule/source/bsd/ephemeral_port_pool.cpp:47-71 | AllocatePort returns 0 exactly when the protocol's pool is full; otherwise a port of 49152 to 65535 that was free goes to held, and no other port of either pool changes. |
| PortPool.ReservePortMeaning | sysmodule/source/bsd/ephemeral_port_pool.cpp:73-94 | A reservation is refused exactly for an ephemeral port that is held, and a refusal changes nothing; ports below 49152 are granted and not recorded. |
| PortLaws.AllocateInNumbers | sysmodule/source/bsd/ephemeral_port_pool.cpp:47-71 | In ports: an allocation lends one port of 49152 to 65535 that was not lent, in the pool of TCP or in the one that all other protocols share, and the next search begins one port further, round at 65535; it fails exactly when all 16384 are lent. |
| PortLaws.AllocateTakesTheFirst | sysmodule/source/bsd/ephemeral_port_pool.cpp:53-70 | Of the ports that are not lent it is the first one counting upwards from the hint and round at 65535. |
| PortLaws.ReserveInNumbers | sysmodule/source/bsd/ephemeral_port_pool.cpp:73-94 | A named port is granted exactly when it is not lent; below 49152 nothing is ever lent; no other port and no hint changes. |
| PortLaws.ReleaseInNumbers | sysmodule/source/bsd/ephemeral_port_pool.cpp:100-112 | After a release the port is not lent; no other port and no hint changes. |
| PortPool.EphemeralPortPool.AllocatePort | sysmodule/source/bsd/ephemeral_port_pool.cpp:47-71 | The search loop over the bitset computes the allocation above. |
| PortPool.EphemeralPortPool.AllocateSpecificPort | sysmodule/source/bsd/ephemeral_port_pool.cpp:73-94 | The bit test and set compute the reservation above. |
| PortPool.EphemeralPortPool.ReleasePort | sysmodule/source/bsd/ephemeral_port_pool.cpp:100-112 | Releasing clears exactly the port's own bit of the protocol's pool; the hint stays. |
| PortPool.EphemeralPortPool.GetAvailableCount | sysmodule/source/bsd/ephemeral_port_pool.cpp:130-137 | The available count and the number of held ports always add up to 16384. |
| PortPool.EphemeralPortPool.ReleaseAll | sysmodule/source/bsd/ephemeral_port_pool.cpp:139-146 | Both pools become empty with hint 0. |
| PoolRuns.EarlierIsTakenFirst | sysmodule/source/bsd/ephemeral_port_pool.cpp:47-146 | Over any run: while p is free and nearer to the hint than r, r is not allocated before p has been taken; if the run releases all ports, p must also be the lower one. |
| PoolRuns.ReuseWaitsExactlyWhenHintPast | sysmodule/source/bsd/ephemeral_port_pool.cpp:47-112 | Over all runs of AllocatePort, AllocateSpecificPort and ReleasePort, a released port comes back only after every other free port was taken if and only if no other free port lies behind it in search order at the release. |
| PoolRuns.ReuseWaitsExactlyWhenLast | sysmodule/source/bsd/ephemeral_port_pool.cpp:47-146 | The same over all runs that may also contain ReleaseAll, if and only if in addition every other free port is lower. |
| PoolRuns.AllocateThenReleaseWaits | sysmodule/source/bsd/ephemeral_port_pool.cpp:47-146 | A port released straight after its allocation is the last one to be handed out again over all runs without ReleaseAll, and over all runs if and only if no higher port is free. |
| PoolRuns.ReleasedPortCanJumpTheQueue | sysmodule/source/bsd/ephemeral_port_pool.hpp:83-84 | The documented avoidance of rapid reuse fails: two ports allocated from an empty pool and released in the other order, and the one released last can be allocated again while the other, free all the time, waits. |
| PoolRuns.ReleaseAllForgetsTheOrder | sysmodule/source/bsd/ephemeral_port_pool.cpp:139-146 | Concretely, port 49152 allocated, released and followed by ReleaseAll comes back at once. |
| Ring.PushAllKeepsNewest | sysmodule/source/bsd/proxy_socket.cpp:341-363 | Pushing any packets into a full-drops-oldest queue keeps exactly the newest 64. |
| ProxySocket.ProxySocket.constructor | sysmodule/source/bsd/proxy_socket.cpp:29-46 | A new socket is unbound, empty and its event is not signalled. |
| ProxySocket.ProxySocket.Bind | sysmodule/source/bsd/proxy_socket.cpp:57-74 | Bind succeeds only from the created state and only for AF_INET, and otherwise changes nothing. |
| ProxySocket.ProxySocket.IncomingData | sysmodule/source/bsd/proxy_socket.cpp:312-364 | The ring takes the datagram, cut to the slot size, as its newest packet; a full ring drops its oldest; the event is signalled. The code does not look at the shutdown flags here. |
| ProxySocket.ProxySocket.ConsumeFront | sysmodule/source/bsd/proxy_socket.cpp:266-283 | Yields the first min(len, packet length) bytes and the source of the oldest packet; without peek it leaves the ring, and the event is cleared when nothing is left. |
| ProxySocket.ProxySocket.RecvTry | sysmodule/source/bsd/proxy_socket.cpp:245-296 | The first critical section of RecvFrom: error, packet, end of data, or a wait, in the order of the code's tests. |
| ProxySocket.ProxySocket.RecvWoken | sysmodule/source/bsd/proxy_socket.cpp:298-309 | The second critical section of RecvFrom, entered after the wait. |
| ProxySocket.ProxySocket.Shutdown | sysmodule/source/bsd/proxy_socket.cpp:607-627 | Sets the flags asked for and signals the event; other values are refused. |
| ProxySocket.ProxySocket.Close | sysmodule/source/bsd/proxy_socket.cpp:629-643 | Closed, both directions shut down, event signalled, ring empty. |
| ProxySocket.ProxySocket.GetPendingDataSize | sysmodule/source/bsd/proxy_socket.cpp:669-677 | The sum of the lengths of all queued packets. |
| SocketLaws.EveryRunMatches | sysmodule/source/bsd/proxy_socket.cpp:312-364 | In every run the arrivals at a socket are the datagrams handed to it, in order, each the first 2000 bytes of its datagram. |
| SocketLaws.DeliveriesAreFirstBytes | sysmodule/source/bsd/proxy_socket.cpp:266-283 | In every run each read that took a packet got the source and, byte for byte, the first min(len, 2000) bytes of a datagram handed to the socket. |
| SocketLaws.ReadAnswersOldest | sysmodule/source/bsd/proxy_socket.cpp:245-309 | In every run each answer with data, peeking or not, waited or not, is the source and the first min(len, 2000) bytes of the oldest datagram queued, and what is queued are the latest datagrams. |
| SocketLaws.ReadAnswersExactly | sysmodule/source/bsd/proxy_socket.cpp:245-296 | In every run a read answers end of data exactly when the run shut the socket down for reading or closed it, whatever is queued, and never that the descriptor is bad; otherwise come the buffer test, the data, and waiting exactly when nothing is queued and neither the call nor the socket is non-blocking. |
| SocketLaws.EveryRunFlags | sysmodule/source/bsd/proxy_socket.cpp:607-643 | In every run the socket is marked as shut for reading, shut for writing and closed exactly when the run contains a step that asked for it. |
| SocketLaws.FlagBits | sysmodule/source/bsd/proxy_socket.cpp:261-262 | MSG_PEEK is the bit of value 2 and MSG_DONTWAIT the bit of value 128 of the flags, whatever the other bits are. |
| SocketRuns.StepKeepsInv | sysmodule/source/bsd/proxy_socket.cpp:245-364 | Every single step of readers (three for a blocked read: the section that finds nothing, the return of the wait, the section after it), senders, Shutdown and the two halves of Close keeps the invariant behind the next rows. |
| SocketRuns.EveryRunKeepsInv | sysmodule/source/bsd/proxy_socket.cpp:245-364 | The invariant holds after every interleaving from a new socket. |
| SocketRuns.NoLostWakeup | sysmodule/source/bsd/proxy_socket.cpp:276-307 | In every run, the wait of a reader that waits while packets are queued can return, and if the reader resumes before another one empties the queue, it gets the oldest queued packet. |
| SocketRuns.AgainExactly | sysmodule/source/bsd/proxy_socket.cpp:298-309 | In every run, a reader whose wait has returned is told Again if and only if every arrival has been read or cleared by Close, the last one included; otherwise it gets the oldest queued packet. |
| SocketRuns.UndisturbedReadIsAnswered | sysmodule/source/bsd/proxy_socket.cpp:276-309 | If the event is not signalled without a packet when the wait starts, and until the reader resumes there is no effective Shutdown, no Close, and no other reader that takes the last packet once the wait has returned, the reader gets the oldest queued packet and never Again. |
| SocketRuns.StartSignals | sysmodule/source/bsd/proxy_socket.cpp:29-46 | A new socket meets the condition on the event, so the row above covers every run without Shutdown and Close. |
| SocketRuns.ShutdownAnswersAgain | sysmodule/source/bsd/proxy_socket.cpp:607-635 | In every state with a reader waiting for a packet, Shutdown and the first half of Close let the reader through, and it is told Again. |
| SocketRuns.StaleSignalAnswersAgain | sysmodule/source/bsd/proxy_socket.cpp:285-309 | In every state with the event signalled and no packet, on a socket still open for reading, a blocking read is let through at once, told Again, and leaves the state as it was. |
| SocketRuns.ShutWriteLeavesASignal | sysmodule/source/bsd/proxy_socket.cpp:607-627 | Concretely, Shutdown(Write) on a new socket leads to such a state. |
| SocketRuns.ShutdownAloneAnswersAgain | sysmodule/source/bsd/proxy_socket.cpp:298-309 | A concrete run with one reader and no packet at all in which a blocking read answers Again. |
| SocketRuns.WokenReaderCanFindNothing | sysmodule/source/bsd/proxy_socket.cpp:298-309 | A concrete run with a packet that another reader takes between the return of the wait and the section after it: the blocking read answers Again. |
| SocketRuns.QueueRefinesDropOldestFifo | sysmodule/source/bsd/proxy_socket.cpp:245-364 | In every run the queue is exactly the newest at most 64 unread arrivals, and reads returned distinct earlier arrivals in order, each cut to the reader's length. |
| SocketRuns.PeekChangesNothing | sysmodule/source/bsd/proxy_socket.cpp:261-296 | In every run a peek, whether it answers at once or has to wait, leaves socket and history as they were, and answers what a read in its place would. |
| SocketRuns.ResumedPeekChangesNothing | sysmodule/source/bsd/proxy_socket.cpp:298-309 | The same for a peek that resumes after its wait. |
| Network.UnicastRouting | sysmodule/source/bsd/proxy_socket_manager.cpp:593-626 | For every iteration order a unicast packet goes to at most one socket: one bound to its address if there is any, else a wildcard one if there is any. |
| Network.FanOutRouting | sysmodule/source/bsd/proxy_socket_manager.cpp:628-675 | For every iteration order a broadcast or multicast packet goes to exactly the eligible sockets when there are at most 8, else to 8 different eligible ones. |
| Network.TargetsAreEligible | sysmodule/source/bsd/proxy_socket_manager.cpp:572-676 | Nobody is found exactly when nobody is eligible, and only eligible sockets are found. |
| Network.RulesAgree | sysmodule/source/bsd/proxy_socket_manager.cpp:23-45 | The rule for waiting packets and the routing rule agree on unicast and subnet broadcast; on limited broadcast and multicast the routing rule accepts every socket on the port. |
| RoutingLaws.RoutedExactly | sysmodule/source/bsd/proxy_socket_manager.cpp:427-505 | The whole outcome of routing a datagram that is no echo, in addresses: to an address that ends in 255, 255.255.255.255 or 224.0.0.0 to 239.255.255.255, all sockets that may receive it, or eight of them; to any other address at most one, on that very address if there is one. Each reached socket has source and first 2000 bytes as its newest packet, having dropped its oldest of 64; if nobody is reached, UDP vanishes and others become the newest of 32 waiting packets with their first 1400 bytes; nothing else changes. |
| RoutingLaws.EchoReachesNobody | sysmodule/source/bsd/proxy_socket_manager.cpp:436-441 | A datagram whose source is the known local address is answered as handled and changes nothing. |
| RoutingLaws.RunAddsNoEcho | sysmodule/source/bsd/proxy_socket_manager.cpp:436-441 | Over every run of all operations with an unchanged known local address: every packet from that address that is queued at a socket or waits afterwards was there before, so an echo reaches no socket at once, by waiting, or by a later bind. |
| Ring.CompactKeep | sysmodule/source/bsd/proxy_socket_manager.cpp:751-759 | Moving a kept packet forward in place never overwrites an unread one, across the wrap too. |
| Ring.CompactDone | sysmodule/source/bsd/proxy_socket_manager.cpp:763-765 | After the walk the ring holds the kept packets in order. |
| Network.WalkDone | sysmodule/source/bsd/proxy_socket_manager.cpp:726-765 | When every pending packet has been looked at, the ring is the non-stale packets that did not match, in order, and the socket has received the non-stale matching ones, in order. |
| Network.CloseInSteps | sysmodule/source/bsd/proxy_socket_manager.cpp:103-183 | Release, close, purge and unregister one after the other come to the one step Close; the purge happens exactly when no other registered socket has the protocol and local port. |
| Filters.FilterMeaning | sysmodule/source/bsd/proxy_socket_manager.cpp:726-765 | What stays of the ring: exactly the packets that satisfy the condition, at increasing positions. |
| PendingLaws.BindAnswers | sysmodule/source/bsd/bsd_mitm_service.cpp:1245-1300 | The answer of a bind: no memory exactly when the descriptor is new and 64 sockets exist; else address in use exactly when the named port is lent, or port 0 is asked for and all are; else invalid exactly when the socket is past its first bind; else success. |
| PendingLaws.BindInFields | sysmodule/source/bsd/bsd_mitm_service.cpp:1263-1298 | After a successful bind the address of the socket is the local one if 0.0.0.0 was asked for and a local one is known, else the one asked for; the port is the one asked for, or for port 0 a free one from 49152 on; that port is lent, and no other; no other socket changes. |
| PendingLaws.BindDelivers | sysmodule/source/bsd/proxy_socket_manager.cpp:716-766 | With packets and clock values: the waiting packets of the protocol and port whose destination the address takes and that arrived at most 500 ms before are queued behind what was queued, in order, with their sources and bytes, of which the last 64 remain; those that arrived more than 500 ms before are neither queued nor waiting; all others go on waiting in order. |
| PendingLaws.BoundHears | sysmodule/source/bsd/proxy_socket_manager.cpp:593-626 | So a datagram to the address and port of a bound socket becomes its newest packet if nobody else may receive it; after a bind to 0.0.0.0 with a known local address that is one to the local address. |
| PendingLaws.AutoBindInFields | sysmodule/source/bsd/bsd_mitm_service.cpp:1439-1476 | The implicit bind of a socket without a proxy: its errors in order, and on success the local address, a free port from 49152 on that is lent afterwards, and nothing queued; a registered socket stays as it is. |
| PendingLaws.CloseInFields | sysmodule/source/bsd/proxy_socket_manager.cpp:103-183 | After a close the socket is gone and its port is free, and no other one; if its port is not 0 and no other registered socket has its protocol and port, what waits for that protocol and port is gone and the rest keeps its order; otherwise nothing waiting changes. |
| PendingLaws.GoneExactly | sysmodule/source/bsd/proxy_socket_manager.cpp:136-176 | A waiting packet is gone after a close if and only if the closed socket has a port other than 0, the packet has its protocol and port, and no other registered socket has both. |
| PendingLaws.CloseFates | sysmodule/source/bsd/proxy_socket_manager.cpp:151-176 | In the ledger a close settles exactly those waiting packets, as purged. |
| PendingLaws.BindFates | sysmodule/source/bsd/proxy_socket_manager.cpp:726-749 | In the ledger a successful bind settles exactly the waiting packets of more than 500 ms, as stale, and the younger ones that are for its protocol, port and address, as delivered to it. |
| NetworkRuns.StepKeepsWellFormed | sysmodule/source/bsd/proxy_socket_manager.cpp:62-766 | Every operation keeps the network well formed: at most 64 sockets, at most 32 waiting packets of at most 1400 bytes, none of them UDP, pools within range. |
| NetworkRuns.ClaimPortMeaning | sysmodule/source/bsd/bsd_mitm_service.cpp:1273-1293 | Claiming takes the named or a fresh port from free to held and no other; it yields 0 exactly when the named port is held or the pool is full. |
| NetworkRuns.AutoBindMeaning | sysmodule/source/bsd/bsd_mitm_service.cpp:1439-1476 | The implicit bind touches one socket and claims one port; it fails only when 64 sockets exist or the pool is full, and then claims nothing. |
| NetworkRuns.DeliverKeepsAddresses | sysmodule/source/bsd/proxy_socket_manager.cpp:716-766 | Delivery changes no address, state or protocol of any socket and touches one queue. |
| Ledger.StepFollows | sysmodule/source/bsd/proxy_socket_manager.cpp:427-766 | After every operation the packets the ledger calls waiting are exactly the pending ring, in order. |
| Ledger.LedgerStepExtends | sysmodule/source/bsd/proxy_socket_manager.cpp:427-766 | An operation settles each packet at most once and never changes a settled fate. |
| Ledger.BindDeliversWhatTheLedgerSays | sysmodule/source/bsd/proxy_socket_manager.cpp:716-766 | A bind appends to the queue of the bound socket exactly the packets the ledger newly records as delivered to it, in order, and touches no other socket. |
| Ledger.EmptyNetFollows | sysmodule/source/bsd/proxy_socket_manager.cpp:53-56 | The network starts well formed, with nothing pending and an empty ledger, so the next row covers every run from the start. |
| Ledger.Conservation | sysmodule/source/bsd/proxy_socket_manager.cpp:427-766 | Over every run each packet ever accepted is in exactly one of: waiting, delivered to one socket, dropped as oldest, stale, purged, cleared; the waiting ones are the ring, which never holds UDP and never more than 32. |
| PortOwnership.OwnershipKeptExactly | sysmodule/source/bsd/proxy_socket_manager.cpp:62-250 | From a state in which every registered socket on an ephemeral port holds it in its pool and no two sockets of one pool share such a port, a step leads to such a state again if and only if it is not a bind that claims its port in one pool for an unbound socket of the other, while the own pool of the socket does not hold that port or holds it for another socket. |
| PortOwnership.RunOwnsPortsExactly | sysmodule/source/bsd/proxy_socket_manager.cpp:62-250 | Over every run: ownership holds all along if and only if no step of the run is such a bind. |
| PortOwnership.EmptyNetOwnsPorts | sysmodule/source/bsd/proxy_socket_manager.cpp:185-204 | A network without sockets and with a fresh pool, such as the initial one, meets all three port conditions. |
| PortOwnership.CloseFreesItsPort | sysmodule/source/bsd/proxy_socket_manager.cpp:118-123 | Closing a socket frees exactly its own port. |
| PortOwnership.PortsLeakExactlyOnRebind | sysmodule/source/bsd/bsd_mitm_service.cpp:1273-1298 | Whether ownership is intact or not, a step leaves a held port without owner if and only if it is a bind that claims an ephemeral port for a registered socket that is past its first bind or belongs to the other pool, and no socket of the pool has that port. |
| PortOwnership.RunLeaksExactly | sysmodule/source/bsd/bsd_mitm_service.cpp:1273-1298 | Over every run: every held port has an owner all along if and only if no step of the run is such a bind. |
| PortWitnesses.SecondBindLeaks | sysmodule/source/bsd/bsd_mitm_service.cpp:1273-1298 | From the empty network: descriptor 3 bound to port 5000 and bound again to port 0; the second port is held by nobody. |
| PortWitnesses.ReusedDescriptorMixesPools | sysmodule/source/bsd/bsd_mitm_service.cpp:1245-1289 | From the empty network: UDP port 50000 bound by descriptor 9, refused to descriptor 3, then granted to descriptor 3 reused for TCP; the two sockets share the UDP port and the TCP port is held by nobody. |
| BindOrder.WaitingCommutesExactly | sysmodule/source/bsd/proxy_socket_manager.cpp:427-505 | Routing packets before a bind or after it, for a new socket or one left over unbound with nothing queued, ends in the same state if and only if all of them survive waiting (at most 32, each of at most 1400 bytes, routed no more than 500 ms before the bind, and to an address that the rule for waiting packets lets the socket take) and the bind names the protocol of the socket. |
| BindOrder.OrdinaryPacketsMayWait | sysmodule/source/bsd/proxy_socket_manager.cpp:716-766 | In particular up to 32 packets of at most 1400 bytes, routed no more than 500 ms before the bind, to unicast or subnet broadcast addresses may be routed before or after the bind: the whole state is the same. |
| BindOrder.BroadcastBeforeBindIsLost | sysmodule/source/bsd/proxy_socket_manager.cpp:28-45 | A concrete TCP datagram to the limited broadcast address: received when it is routed after the bind, lost when it is routed before. |
| Manager.ProxySocketManager.CreateProxySocket | sysmodule/source/bsd/proxy_socket_manager.cpp:62-85 | A new socket is registered under the descriptor, an existing one is kept; with 64 sockets none is created. |
| Manager.ProxySocketManager.FindFanOut | sysmodule/source/bsd/proxy_socket_manager.cpp:628-675 | The search loop over the registry finds the targets of the rows on routing. |
| Manager.ProxySocketManager.FindUnicast | sysmodule/source/bsd/proxy_socket_manager.cpp:593-626 | The same for unicast, exact address before wildcard. |
| Manager.ProxySocketManager.RouteIncomingData | sysmodule/source/bsd/proxy_socket_manager.cpp:427-505 | One routed datagram: echoes swallowed, delivered to all targets, otherwise dropped if UDP and else queued. |
| Manager.ProxySocketManager.Enqueue | sysmodule/source/bsd/proxy_socket_manager.cpp:460-478 | The pending ring takes the packet as its newest one and forgets the oldest when 32 wait. |
| Manager.ProxySocketManager.DeliverToAll | sysmodule/source/bsd/proxy_socket_manager.cpp:499-502 | Each target receives the datagram once. |
| Manager.ProxySocketManager.DeliverPendingPackets | sysmodule/source/bsd/proxy_socket_manager.cpp:716-766 | The in-place walk over the circular ring performs the partition of Network.WalkDone, which PendingLaws.BindDelivers gives in packets and clock values. |
| Manager.ProxySocketManager.FindTwin | sysmodule/source/bsd/proxy_socket_manager.cpp:136-149 | Finds another registered socket with the same protocol and port exactly when there is one, in any order. |
| Manager.ProxySocketManager.PurgeMatching | sysmodule/source/bsd/proxy_socket_manager.cpp:151-176 | The second in-place compaction: exactly the packets with the protocol and port leave, order kept. |
| Manager.ProxySocketManager.CloseProxySocket | sysmodule/source/bsd/proxy_socket_manager.cpp:103-183 | Closing through the object is the one step Close of the specification. |
| Manager.ProxySocketManager.CloseAllProxySockets | sysmodule/source/bsd/proxy_socket_manager.cpp:185-204 | All sockets closed and forgotten, all ports free, the pending packets kept. |
| Manager.ProxySocketManager.Reset | sysmodule/source/bsd/proxy_socket_manager.cpp:206-234 | As the row above, and pending packets and the local address cleared. |
| Manager.ProxySocketManager.SetLocalIp | sysmodule/source/bsd/proxy_socket_manager.cpp:682-692 | A change of a known address to another one clears what is pending; the first address does not. |
| BsdService.Bind | sysmodule/source/bsd/bsd_mitm_service.cpp:1201-1341 | Which binds are forwarded, and for the others create, claim, bind and deliver with the code's error results; the object owns afterwards what it owned before and new objects only. |
| BsdService.ConcernsInOctets | sysmodule/source/bsd/bsd_mitm_service.cpp:1201-1243 | The proxy is concerned exactly for AF_INET addresses 10.114.x.y and 0.0.0.0 of tracked sockets. |
| BsdService.AutoBind | sysmodule/source/bsd/bsd_mitm_service.cpp:1439-1476 | What Connect does to a socket without a proxy. A new socket accepts the address, so the code's release of the port after a failed bind never runs. |
| BsdService.PrepareSendTo | sysmodule/source/bsd/bsd_mitm_service.cpp:1874-1915 | What SendTo does to it: the same state, but it goes on without a port, and reports that the network is unreachable exactly when there is no socket. |
| SelectPoll.FdSetBit | sysmodule/source/bsd/bsd_mitm_service.cpp:2419-2425 | Exactly the bit of the descriptor is added. |
| SelectPoll.Select | sysmodule/source/bsd/bsd_mitm_service.cpp:2405-2490 | Each output set is exactly the requested descriptors below nfds that are proxies and ready in that sense, as far as the set is long enough; the call answers for itself exactly when a proxy was asked for and something is ready or nothing else was asked for, and then counts the three answers. |
| SelectPoll.CountIsExact | sysmodule/source/bsd/bsd_mitm_service.cpp:2443-2490 | When the output sets hold all answers, the count is the number of bits set. |
| ReadinessLaws.SelectedBits | sysmodule/source/bsd/bsd_mitm_service.cpp:2405-2475 | Bit by bit: an output set has the bit of a descriptor exactly when it has room for it, the input set has it, the descriptor is below nfds and registered, and it has a packet queued (to read), always (to write), or is closed (for errors). |
| ReadinessLaws.AskedBits | sysmodule/source/bsd/bsd_mitm_service.cpp:2440-2446 | A descriptor is looked at exactly when one of the three input sets has its bit. |
| SelectPoll.Poll | sysmodule/source/bsd/bsd_mitm_service.cpp:2585-2655 | Every entry reports what its descriptor is ready for, nothing for descriptors without proxy; when the call answers for itself is as for Select, and the count then is the number of entries with non-zero revents. |
| ReadinessLaws.PolledBits | sysmodule/source/bsd/bsd_mitm_service.cpp:2598-2628 | The bit of value 1 exactly for a registered descriptor that asked for it and has a packet queued, the bit of value 4 exactly for one that asked for it, the bit of value 16 exactly for a closed one; no other bit. |
| ReadinessLaws.CountIsNumber | sysmodule/source/bsd/bsd_mitm_service.cpp:2624-2626 | The count is the number of entries that report something. |
| SelectPoll.PollScan | sysmodule/source/bsd/bsd_mitm_service.cpp:2601-2630 | The loop answers the first n entries and no other, and knows afterwards whether it saw proxies, others, and how many entries are ready. |
| LogBuffer.RunKeepsNewest | sysmodule/source/debug/log.cpp:103-118 | Over any run of adds the buffer holds the last min(n, capacity) messages, each cut to 255 characters. |
| LogBuffer.RunInCharacters | sysmodule/source/debug/log.cpp:103-118 | After any run on an empty buffer, message j is the j-th of the last `capacity` messages: its characters up to its first NUL, at most 255. |
| LogBuffer.JoinedAt | sysmodule/source/debug/log.cpp:127-154 | In the joined text every message stands behind all earlier ones and is followed by a line feed. |
| LogBuffer.JoinDone | sysmodule/source/debug/log.cpp:127-154 | Once the output is full the remaining messages do not matter. |
| LogBuffer.LogBuffer.Init | sysmodule/source/debug/log.cpp:98-101 | Empty, with the capacity limited to the number of slots. |
| LogBuffer.LogBuffer.Add | sysmodule/source/debug/log.cpp:103-118 | The ring of message slots takes the cut message as its newest. |
| LogBuffer.LogBuffer.Get | sysmodule/source/debug/log.cpp:120-125 | Get(i) is the i-th oldest message, or nothing past the last one. |
| LogBuffer.LogBuffer.GetAll | sysmodule/source/debug/log.cpp:127-154 | Writes exactly the first buffer_size - 1 characters of the messages joined with a newline after each, then a terminator. |
| NodeUpdates.DeltasTelescope | sysmodule/source/ldn/ldn_icommunication.cpp:827-855 | Over any run of queries the changes reported for a node alternate, and replaying them gives its flag as of the last query that covered it. |
| NodeUpdates.ReportInFlags | sysmodule/source/ldn/ldn_icommunication.cpp:827-855 | One report says Connect exactly for a node that is connected now and was not, Disconnect exactly for one that was and is not, nothing beyond eight nodes; a node not covered is remembered as it was. |
| NodeUpdates.FirstChangeIsConnect | sysmodule/source/ldn/ldn_icommunication.cpp:614 | After a cleanup the first change reported for a node is Connect. |
| NodeUpdates.NodeTracker.Cleanup | sysmodule/source/ldn/ldn_icommunication.cpp:614 | All remembered flags become false. |
| NodeUpdates.NodeTracker.GetNetworkInfoLatestUpdate | sysmodule/source/ldn/ldn_icommunication.cpp:827-855 | The loop fills the caller's array with the changes and remembers the flags of the covered nodes only. |
| PacketRegion.SafeWriteAppends | sysmodule/source/ldn/ldn_proxy_buffer.cpp:62-106 | An accepted write that passes the test of the row after next appends exactly its packet and disturbs no queued one. |
| PacketRegion.WriteInNumbers | sysmodule/source/ldn/ldn_proxy_buffer.cpp:62-106 | A write is accepted exactly when the packet has at most 2048 bytes, fewer than 16 are queued, and it ends at or before byte 8448 or is smaller than the read position; then it lies at the write position in the first case and at 0 in the second, and no other byte changes. |
| PacketRegion.ReadInNumbers | sysmodule/source/ldn/ldn_proxy_buffer.cpp:126-164 | A read changes no byte; the read position moves behind the packet read, and both positions go to 0 with the last one. |
| PacketRegion.UnwrappedWriteAppends | sysmodule/source/ldn/ldn_proxy_buffer.cpp:62-106 | While no queued packet lies below the read position the code's own tests suffice, for the write that wraps too. |
| PacketRegion.WriteApartExactly | sysmodule/source/ldn/ldn_proxy_buffer.cpp:77-90 | In every layout that such writes and reads can produce, an accepted write overwrites no byte of a queued packet if and only if no queued packet lies below the read position, or it ends at or below the read position, or it ends inside the region and no queued bytes lie at or above the read position that the write position has not passed; the code tests none of this. |
| PacketRegion.ReadTakesFirst | sysmodule/source/ldn/ldn_proxy_buffer.cpp:126-164 | Read takes the oldest packet off the queue and yields its header and its first max_size bytes. |
| PacketRegion.RunApartExactly | sysmodule/source/ldn/ldn_proxy_buffer.cpp:62-164 | Over any run of writes, reads and resets: no accepted write touches a queued packet if and only if every accepted write passes that test. |
| PacketRegion.SafeRunIsFifo | sysmodule/source/ldn/ldn_proxy_buffer.cpp:62-164 | Over any such run the queue is byte for byte the FIFO of what was written. |
| PacketRegion.UnguardedWriteCorrupts | sysmodule/source/ldn/ldn_proxy_buffer.cpp:62-106 | A concrete run of eight steps in which an accepted write damages a queued packet. |
| LdnProxyBuffer.LdnProxyBuffer.Write | sysmodule/source/ldn/ldn_proxy_buffer.cpp:62-106 | The object's Write, with its index ring and byte region, is the write specified above. |
| LdnProxyBuffer.LdnProxyBuffer.Read | sysmodule/source/ldn/ldn_proxy_buffer.cpp:126-164 | The object's Read is the read specified above. |
| LdnProxyBuffer.LdnProxyBuffer.Peek | sysmodule/source/ldn/ldn_proxy_buffer.cpp:176-188 | Header and size of the oldest packet, or nothing. |
| LdnProxyBuffer.LdnProxyBuffer.GetPendingCount | sysmodule/source/ldn/ldn_proxy_buffer.cpp:195-198 | The number of packets in the queue. |
| LdnProxyBuffer.LdnProxyBuffer.Reset | sysmodule/source/ldn/ldn_proxy_buffer.cpp:219-227 | Empty, with both positions at 0. |
| WhitelistText.ParseHexId | sysmodule/source/config/game_whitelist.cpp:38-67 | The accumulating loop computes the value of the leading hexadecimal digits, after an optional 0x, modulo 2^64. |
| WhitelistLaws.WrittenIdIsRead | sysmodule/source/config/game_whitelist.cpp:38-67 | Any number written in base 16, with digits of either case, leading zeros, and with or without 0x, is read back modulo 2^64, whatever follows that is no digit. |
| WhitelistLaws.WrittenLineIsRead | sysmodule/source/config/game_whitelist.cpp:38-67 | The same for a line of which prefix and digits take at most 23 characters. |
| WhitelistLaws.LongLineIsCut | sysmodule/source/config/game_whitelist.cpp:112-161 | What follows the first 23 characters of a line does not count. |
| WhitelistLaws.OtherLinesAreSkipped | sysmodule/source/config/game_whitelist.cpp:38-67 | A line that starts with no digit has no id. |
| WhitelistText.FeedAllIsLineByLine | sysmodule/source/config/game_whitelist.cpp:112-161 | Feeding a text character by character with a carried line buffer has, at every point, the ids of its finished lines and the cut beginning of the unfinished one. |
| WhitelistText.FlushIsIdsOf | sysmodule/source/config/game_whitelist.cpp:155-161 | With the last line flushed these are the ids of all lines. |
| WhitelistLaws.IdsAreLineValues | sysmodule/source/config/game_whitelist.cpp:112-161 | An id is among the ids of a text exactly when it is not 0 and some line has it as its value. |
| WhitelistLaws.LinesOfJoined | sysmodule/source/config/game_whitelist.cpp:112-161 | A line feed or carriage return behind a text starts one new line. |
| WhitelistText.LongLinesAllFit | sysmodule/source/config/game_whitelist.cpp:101-103 | If every line with an id takes at least 18 bytes, the list allocated from the file size has room for all ids. |
| GameWhitelist.ChunkingDoesNotMatter | sysmodule/source/config/game_whitelist.cpp:112-161 | However successful reads cut the file, the same ids are loaded: the first `capacity` non-zero line values. |
| GameWhitelist.FailureEndsReading | sysmodule/source/config/game_whitelist.cpp:119-154 | A read that fails ends the reading; what the reads before it delivered is kept. |
| GameWhitelist.OneReadDelivers | sysmodule/source/config/game_whitelist.cpp:119-154 | A read delivers at most 512 bytes and at most the rest of the file. |
| GameWhitelist.LoadedAreTheFirst | sysmodule/source/config/game_whitelist.cpp:101-103 | The loaded ids are the first ones, as many as there are places: one for every 18 bytes of the file, and 100 more. |
| GameWhitelist.LongLinesLoseNothing | sysmodule/source/config/game_whitelist.cpp:101-161 | With lines of at least 18 bytes, all ids of the file are loaded. |
| GameWhitelist.ReadIds | sysmodule/source/config/game_whitelist.cpp:112-161 | The chunked reading loop loads those ids, for failing reads too. |
| GameWhitelist.BuildList | sysmodule/source/config/game_whitelist.cpp:101-171 | Allocation, reading, sort and unique give the strictly sorted list of the loaded ids. |
| GameWhitelist.Whitelist.LoadWhitelist | sysmodule/source/config/game_whitelist.cpp:71-176 | Loads once; without file or on an unreadable size the list is empty. |
| GameWhitelist.Whitelist.IsGameInWhitelist | sysmodule/source/config/game_whitelist.cpp:178-199 | Allowed exactly if the list is empty and it is not the album, or the list holds the id. |
| GameWhitelist.AnswerIsMembership | sysmodule/source/config/game_whitelist.cpp:165-198 | After loading, whatever the reads delivered: a program is allowed exactly if it is among the loaded ids, or, if there are none, exactly if its id is at least 0x0100000000000000 and not 0x010028600ebda000. |
| GameWhitelist.AnswerIsInFile | sysmodule/source/config/game_whitelist.cpp:101-198 | With successful reads, however they cut the file, and lines of at least 18 bytes, the loaded ids in that answer are the ids of the lines of the file. |
| SortedIds.SortedPermutationIsUnique | sysmodule/source/config/game_whitelist.cpp:165-168 | A sorted rearrangement is unique, so the result does not depend on the sorting algorithm. |
| SortedIds.SortedIdsMeaning | sysmodule/source/config/game_whitelist.cpp:165-171 | After sort and unique the list is strictly sorted and has the same members as before. |
| SortedIds.UniqueFirst | sysmodule/source/config/game_whitelist.cpp:169-171 | The in-place removal of equal neighbours. |
| SortedIds.BinarySearch | sysmodule/source/config/game_whitelist.cpp:192-198 | On a sorted list, found exactly when present. |
| ConfigFormat.CommitAllStaysInside | sysmodule/source/config/config.cpp:259-262 | Whatever lines are written into a buffer, the text stays shorter than the buffer and ends at a line end. |
| ConfigFormat.EveryConfigFits | sysmodule/source/config/config.cpp:256-311 | Every configuration the structure can hold is written in full: at most 3401 of 4096 characters. |
| ConfigWriter.PrintLine | sysmodule/source/config/config.cpp:259-262 | A bounded print leaves what was before it, and puts the line, its line feed and a terminator there when they fit. |
| ConfigWriter.WriteLine | sysmodule/source/config/config.cpp:259-262 | A line is kept whole or not at all. |
| ConfigWriter.FormatConfigContent | sysmodule/source/config/config.cpp:256-311 | The buffer holds exactly the lines of the configuration that fit; all of them for a buffer of 4096. |
| LineBuffer.TrimStartAt | sysmodule/source/config/config.cpp:34-39 | The pointer moves to the trimmed string inside the buffer. |
| LineBuffer.TrimEndAt | sysmodule/source/config/config.cpp:44-50 | The string is trimmed in place; only its cut characters are overwritten. |
| LineBuffer.StrChr | sysmodule/source/config/config.cpp:199 | The first occurrence in the string, or none. |
| LineBuffer.SafeStrcpy | sysmodule/source/config/config.cpp:55-62 | The first max characters of the string, terminated. |
| LineBuffer.TrimEndSeenFrom | sysmodule/source/config/config.cpp:206-210 | A pointer into a string sees its own string trimmed after the whole string was trimmed. |
| LineBuffer.SplitKeyValue | sysmodule/source/config/config.cpp:199-210 | Cutting at the equals sign and trimming both halves in the one buffer gives the trimmed key and value, neither disturbing the other. |
| ConfigLoader.ProcessSetting | sysmodule/source/config/config.cpp:200-233 | The key=value part of a line changes the one field of the section it names, with key and value limited. |
| ConfigLoader.ProcessBuffer | sysmodule/source/config/config.cpp:183-238 | One line buffer is processed as specified for its line: blank, comment, section, setting or nothing. |
| ConfigLoader.ParseConfigContent | sysmodule/source/config/config.cpp:172-250 | The character loop with its limited line buffer comes to processing the lines of the text one by one, each cut to 511 characters. |
| ConfigLoader.Fgets | sysmodule/source/config/config.cpp:494 | Reads up to and including the next line feed, at most 511 characters, and terminates them. |
| ConfigLoader.LoadConfigFile | sysmodule/source/config/config.cpp:485-565 | The fgets loop processes its chunks one by one, and on texts whose lines fit gives what the other loader gives. |
| ConfigLoading.LoadersAgree | sysmodule/source/config/config.cpp:485-565 | Both loaders end in the same section and configuration, from any start, on every text whose lines fit in 511 characters and whose carriage returns all belong to a line end, with NUL characters in it or not. This is sufficient only: the exact conditions, SameLinesExactlyForCr and SameLinesExactlyForLength, are about the non-blank lines that the loaders hand on, not about the configuration, and each about one way to differ. |
| ConfigLoading.LoneCrDivides | sysmodule/source/config/config.cpp:180-244 | With a carriage return inside a line the first loader processes two lines, the second one line with it. |
| ConfigLoading.LongLineDivides | sysmodule/source/config/config.cpp:245-247 | Of a line of 512 to 1022 characters the first loader drops what lies behind 511, the second processes it as another line. |
| ConfigAgreement.SameLinesExactlyForCr | sysmodule/source/config/config.cpp:180-244 | For every text without NUL whose lines between line feeds have at most 511 characters: the loaders hand on the same non-blank trimmed lines if and only if every carriage return is part of the white space at the end of its line. |
| ConfigAgreement.SameLinesExactlyForLength | sysmodule/source/config/config.cpp:245-247 | For every text without NUL and carriage return, of lines of any length: the loaders hand on the same non-blank trimmed lines if and only if behind the first 511 characters of each line there are only blanks. |
| ConfigAgreement.SameLinesSameState | sysmodule/source/config/config.cpp:485-565 | Loaders that hand on the same lines end in the same state, from any start. |
| ConfigRoundTrip.StrToUlOfDecimal | sysmodule/source/config/config.cpp:78-87 | Parsing a printed number of up to 64 bits gives the number. |
| ConfigLaws.Assignment | sysmodule/source/config/config.cpp:196-233 | A line `key = value` with any spaces and tabs in front, around the equals sign and behind sets that key of the current section to that value, which may contain equals signs; outside the four sections it does nothing. |
| ConfigLaws.LongKeyIsCut | sysmodule/source/config/config.cpp:212-215 | Of a longer key the first 63 characters count. |
| ConfigLaws.NoAssignment | sysmodule/source/config/config.cpp:183-201 | Lines whose first character other than spaces and tabs is a semicolon or number sign, blank lines, and lines without an equals sign that do not start with a bracket do nothing. |
| ConfigLaws.Header | sysmodule/source/config/config.cpp:102-109 | A line that starts with a bracket, white space around it or not, changes only the section: to one of four by its exact name, else to one whose lines do nothing. |
| ConfigLaws.FlagIsRead | sysmodule/source/config/config.cpp:67-73 | A flag is off exactly when it starts with 0, f, F, n or N. |
| ConfigLaws.NumberIsRead | sysmodule/source/config/config.cpp:78-87 | A decimal number behind white space and an optional sign is read up to the first other character; it stops growing at 2^64 - 1, and a minus sign complements it to 2^64. |
| ConfigLaws.NoNumberIsZero | sysmodule/source/config/config.cpp:78-87 | A value that starts with nothing of that kind is 0. |
| ConfigLaws.ServerKeys | sysmodule/source/config/config.cpp:114-122 | The three keys of the server section and their fields: the host takes the first 128 characters, the port is taken modulo 2^16; nothing else changes. |
| ConfigLaws.NetworkKeys | sysmodule/source/config/config.cpp:127-137 | The four keys of the network section and their fields, taken modulo 2^32; nothing else changes. |
| ConfigLaws.LdnKeys | sysmodule/source/config/config.cpp:142-152 | The four keys of the ldn section and their fields: passphrase and interface take the first 64 and 32 characters; nothing else changes. |
| ConfigLaws.DebugKeys | sysmodule/source/config/config.cpp:157-165 | The three keys of the debug section and their fields; nothing else changes. |
| ConfigLaws.OtherKeys | sysmodule/source/config/config.cpp:114-165 | Any other key of a section changes nothing. |
| ConfigLaws.WalkerReads | sysmodule/source/config/config.cpp:172-247 | The first loader ends a line at every line feed and carriage return and processes its first 511 characters. |
| ConfigLaws.FgetsReads | sysmodule/source/config/config.cpp:485-499 | The second loader processes at once what lies up to and including the next line feed, at most 511 characters. |
| ConfigRoundTrip.SettingLine | sysmodule/source/config/config.cpp:196-233 | A printed setting is read as its key with the trimmed value, in whatever section is current. |
| ConfigRoundTrip.StoredExactly | sysmodule/source/config/config.cpp:205-210 | A one-line value comes back unchanged if and only if it neither starts nor ends with a space or tab. |
| ConfigRoundTrip.LoadedIsOneLine | sysmodule/source/config/config.cpp:172-250 | From a start without line breaks in its strings no text whatever makes the loader store one. |
| ConfigRoundTrip.SavedSuitsBothLoaders | sysmodule/source/config/config.cpp:256-311 | What the printer writes meets the conditions under which the loaders agree. |
| ConfigRoundTrip.RoundTrip | sysmodule/source/config/config.cpp:172-311 | Either loader, from any starting configuration, restores all fields of a saved configuration whose strings are tidy. |
| ConfigRoundTrip.RoundTripExactly | sysmodule/source/config/config.cpp:172-311 | Through the buffer walker a configuration comes back from every start if and only if its strings are one line each and neither start nor end with a space or tab. |
| ConfigFgetsRoundTrip.FgetsRoundTripExactly | sysmodule/source/config/config.cpp:485-630 | Through the fgets loop a configuration comes back from every start if and only if its strings have no line feed, no blank in front and no white space at the end; carriage returns inside come back. |
| ConfigFgetsRoundTrip.LoadedHasNoLf | sysmodule/source/config/config.cpp:485-565 | From a start without line feeds in its strings no text whatever makes the fgets loop store one. |
| ConfigRoundTrip.DefaultIsTidy | sysmodule/source/config/config.cpp:320-346 | The default configuration is one that comes back. |
| ConfigRoundTrip.LoneCrChangesTheHost | sysmodule/source/config/config.cpp:180-244 | A concrete setting with a carriage return of which the two loaders store different hosts. |
| ConfigRoundTrip.LongLineChangesTheHost | sysmodule/source/config/config.cpp:245-247 | A concrete comment of 511 characters with a setting behind it: the first loader keeps the host, the second stores the new one. |

## Left out

- IPC dispatch, the TCP and TLS client, P2P and UPnP, threads, stacks and log formatting: calls into code that is not part of this model.
- The LDN state machine, `protocol/types.hpp` and `RyuLdnClient` are not part of this model; of the LDN service only the node updates are.
- Mutexes: operations are atomic steps, nothing is claimed about lock order or re-entry.
- TCP: listen, accept, connect handshakes and the disconnect message sent by `Close` are not modelled; neither are socket options and the broadcast flag.
- Callbacks of the manager (send, connect, disconnect) and their clearing in `Reset`.
- `FindSocketByDestination`, `PopFrontPacket`, `GetUsedBytes` and the plain getters: they would add only easy members.
- A null data pointer with a positive length, the bytes of a slot beyond its length, and the padding of `SockAddrIn`.
- The agreement between the service's own table of socket information and the registry: the code does not keep it.
- File access: a file is a string, a read outcome is a parameter, `save_config` ends at the formatted text. The desktop `save_config` (`config.cpp:588-626`) prints the same lines with `fprintf` and is not modelled a second time.
- Configuration fields are values here; `safe_strcpy` into a field array is its effect `Take(value, limit)`. The copy into the key buffer is modelled in place.
- Socket objects destroyed by `Reset` and `CloseAllProxySockets`: the model drops them from the registry.
- ConfigAgreement.SameLinesExactlyForCr: is about texts without NUL whose lines fit the buffer; for texts that have NUL characters, or both a carriage return inside a line and longer lines, only `LoadersAgree` and the two loaders' own specifications are given. Lines that differ need not change the configuration: two different comments do not.
- SelectPoll.Select: covers the paths that answer without the real socket service; the merge with its answers is not modelled, because the merged count depends on what that service reports.
- SelectPoll.Poll: the same, and buffers are whole entries.
- GameWhitelist.ReadIds: every successful read delivers at least one byte, because the source's loop does not end otherwise.
- SortedIds.SortFirst: `std::sort` is modelled by its result, which `SortedPermutationIsUnique` shows to be the only one.
- ConfigWriter.PrintLine: encoding errors of `snprintf` (a negative result) are not modelled; conversions are string concatenation and `Decimal`.
- NodeUpdates.NodeTracker.GetNetworkInfoLatestUpdate: only the state change of an entry is modelled, not its zeroed reserved bytes.
