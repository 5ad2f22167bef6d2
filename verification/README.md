# A verified model of the Ryu controller's stateful core

This project models, in Dafny, the parts of the controller under `network/ryu` whose behaviour is decided
by state that several functions share, and proves what each step keeps, what whole runs guarantee, and
where the code does not do what it is for.

- **Router** (`Ipv4`, `AddressData`, `RoutingTable`, `RouterFlows`, `RouterSteps`, `RouterDeletes`,
  `VlanRouter`). One VLAN's address table, routing table and flow entries are three views of one forwarding
  function, in three layers. `Safe()`: the tables are well-formed and a gateway always lies in a stored
  network; every method keeps it, whatever the switch holds and whatever the ids are. `Serves()`: every table
  entry has its flows and only the bottom entry may be a stranger; then priorities refine longest-prefix
  match. `Valid()`: no entry is left over at all. An address is its 32 bits, so masking is the
  bitwise conjunction itself. The switch's flow table is a map from match and priority to cookie and
  action, and adding replaces (section 6.4 of the OpenFlow 1.3 Switch Specification).
- **BFD** (`BfdSession`, `BfdProtocol`, `BfdAdminDown`). One session's methods, then two sessions with the
  packets between them: over FIFO channels, over a network that loses, repeats and reorders, with timeouts
  at any moment, and over FIFO channels with sides that are taken down administratively (sections 6.2 and
  6.8.6 of RFC 5880).
- **IGMP** (`IgmpQuerier`, `IgmpSnooper`). The flow entries as a function of the membership maps, under any
  interleaving of reports, leaves, query rounds and timeouts.
- **Messages** (`RecvLoop`, `Mailbox`). Framing of the TCP stream, and the bounded queue with its semaphore.
- **Applications** (`AppLoop`, `AppLoader`). The dependency worklist: exactly when it ends, and what it has
  loaded by then.
- **Codecs** (`OfctlString`, `Bytes`, `MrtPeers`, `MrtRecords`). The nested-parenthesis tokenizer, and MRT
  peers, peer index tables, records and files (sections 2 and 4.3.1 of RFC 6396).
- **Registries** (`NetworkRegistry`, `DpSet`). Three indexes over the same ports, and the connected switches,
  each with the events by which observers follow them.

Objects whose methods update fields are classes whose methods are specified by their whole new state;
dictionaries are maps and iteration picks any remaining key, so nothing depends on their order. `Valid()`
of a class is its invariant: every method keeps it, or its contract says for exactly which calls it is
kept (the router, which has three layers of it, says so of each). A handler between two sleeps is one
atomic step. `dafny verify dfyconfig.toml` checks everything.

## Where the code falls short

These properties do not hold of every call. Each is stated with the condition under which it holds.

- A route to a zero-length prefix written otherwise than `0.0.0.0/0` (say `10.0.0.0/0`) is stored under the
  default route's key but gets the entry of a static one. The table keeps longest-prefix order and the
  switch goes on serving it, but the drop entry, or the entry of the default route that it overwrote, stays
  behind with nothing to explain it (`SetRoutingData`), and its entry ties with those by which hosts are
  learned, so that none of the two decides (`ForwardsInside`). Where a network of length zero is stored as well, the two
  share one key, and one of them loses its entry (`Clash`). The duplicate check also compares the text as
  given, so a respelled destination overwrites a stored route, and one with host bits, such as `10.0.0.1/8`,
  is never refused, however often it is added (`RoutingTable.Add`).
- A static route that covers a stored network hides those of its hosts that have not been learned yet: their
  packets go to the route's gateway (`ForwardsInside`).
- Ids run to 32 bits, but cookies tell only 16 of them apart. Tables, entries and forwarding are right for
  any id; what fails is deletion. A route with a longer id cannot be deleted, and its cookie is that of
  another VLAN; an address with a longer id loses its entries when routes are deleted, and is passed over
  when all addresses are (`RouteCookieDecodesIff`, `SelectedRouteIff`, `DeleteRoutingData`, `DeleteAddressData`).
  Once the counter has come round, an id can be given twice (`AddressData.Add`, `RoutingTable.Add`); then one
  deletion takes all that have it, and an address is kept if another with its id holds a gateway.
- Deleting address id 0 while there is no default route takes the drop entry away, and deleting address
  id r * 65536 takes the entry of route r (`DeleteAddressData`). Deleting route id 0 takes the entries of
  every address and may take the drop entry, or put it in the default route's place (`DeleteRoutingData`,
  `SparedInEveryOrder`).
- On VLAN 0 either kind of deletion with id 0 also takes away the enclosing router's ARP and switching
  entries, whose cookie is 0 (`ForeignKeptIff`).
- An IGMP member on the server's own port overwrites the server's entry (`IgmpQuerier.DoReport`). A snooper
  that hears a query on another port keeps entries for the old one (`IgmpSnooper.DoQuery`). A LEAVE from an
  unrecorded port records it, so that its next REPORT sets no entry for it (`IgmpSnooper.DoReport`).
- `load_apps` loads an application again each time it is named, so applications that need each other can keep
  it running for ever (`NeverEndsIffTrapAhead`, `MutualNeedNeverEnds`). A cycle through a module that provides
  a context need not (`CycleThroughContextEnds`).
- An IPv4 peer with the IPv6 bit in its type cannot be read back (`PeerRoundTrip`). Records with the extended
  header come back with microseconds and length exchanged (`RecordRoundTrip`), and records of types 33 and
  49 make the reader lose its place (`NextOfWire`).
- A port that moves between networks leaves its MAC address behind in the index, `create_mac` enters the
  address before it checks the port, and a removal that names another network leaves stale entries
  (`UpdatePort`, `CreateMac`, `UpdateMac`, `RemovePort`).

## Model

| member | source | states |
|---|---|---|
| Ipv4.MaskAgree | network/ryu/app/rest_router.py:1884-1899 | masked addresses are equal if and only if the addresses agree in their leading bits |
| Ipv4.MaskClearsHostBits | network/ryu/app/rest_router.py:1894-1899 | masking keeps the leading bits and clears every other one, so an address is its own network address if and only if it has no host bits |
| Ipv4.ContainsIff | network/ryu/app/rest_router.py:1884-1899 | an address lies in a prefix if and only if the prefix has no host bits and the two agree in its length |
| Ipv4.OverlapIffSharedAddress | network/ryu/app/rest_router.py:1266-1273 | the overlap test on the two default gateways holds if and only if the two networks share any address at all |
| AddressDatas.AddressData.Add | network/ryu/app/rest_router.py:1261-1285 | a network is rejected if and only if it shares an address with a stored one, in any visiting order; the stored network address has no host bits; distinct ids stay distinct if and only if the counter does not stand on a stored id, which it cannot before it has come round |
| AddressDatas.AddressData.Delete | network/ryu/app/rest_router.py:1287-1291 | one entry with that id goes if there is any, and with distinct ids exactly that one |
| AddressDatas.AddressData.GetByIp | network/ryu/app/rest_router.py:1296-1305 | the one network that contains the address is found, whatever the order of the dictionary; nothing is found if and only if none contains it |
| AddressDatas.AddressData.GetById | network/ryu/app/rest_router.py:1296-1300 | the entry with that id is found if and only if there is one |
| RoutingTables.RoutingTable.Add | network/ryu/app/rest_router.py:1325-1359 | when an addition is refused, and exactly what it stores, under a key without host bits; the destination as given is a key afterwards, and so refused while its route stands, if and only if it has no host bits; the table keeps longest-prefix order for every destination, also for a zero-length prefix spelled otherwise than 0.0.0.0/0, and distinct ids stay distinct if and only if the counter does not stand on the id of another route |
| RoutingTables.RoutingTable.Delete | network/ryu/app/rest_router.py:1361-1365 | one route with that id goes if there is any, and with distinct ids exactly that one |
| RoutingTables.RoutingTable.GetByDst | network/ryu/app/rest_router.py:1377-1389 | the scan returns a longest stored prefix that contains the destination, and nothing if and only if none does |
| RoutingTables.LongestMatchUnique | network/ryu/app/rest_router.py:1377-1389 | there is only one longest match, so the order of the dictionary cannot matter |
| RouterFlows.CookieClasses | network/ryu/app/rest_router.py:626-649 | for ids up to 65535, address, route and VLAN cookies decode to their own id and VLAN, and no decoder takes one kind for another |
| RouterFlows.RouteCookieDecodesIff | network/ryu/app/rest_router.py:626-649 | a route cookie decodes to its VLAN and id if and only if the id fits 16 bits; the excess is added to the VLAN |
| RouterFlows.AddressCookieDecodes | network/ryu/app/rest_router.py:626-649 | an address cookie decodes to its VLAN and id on all 32 bits, and to a route id as well if and only if it is longer than 16 bits |
| RouterFlows.RouteFlowMatches | network/ryu/app/rest_router.py:168-192 | a route flow matches a packet if and only if its prefix contains the destination, and its priority is a strictly growing function of the prefix length |
| RouterFlows.PriorityRefinesLongestMatch | network/ryu/app/rest_router.py:168-192 | for a destination outside every address network, the flow of the longest matching route beats every other matching flow of the VLAN, also one left over at the bottom; it sends the packet to the MAC address of its gateway, or to the controller while that is unknown |
| RouterFlows.NoRouteIsDropped | network/ryu/app/rest_router.py:778-785 | with no matching route the drop entry decides |
| RouterFlows.AgreeIffServeAndBottom | network/ryu/app/rest_router.py:778-797 | tables and entries agree if and only if the switch serves the tables and the entry without a destination is that of the default route or, without one, the drop entry |
| RouterFlows.OneFlowPerRoute | network/ryu/app/rest_router.py:787-797 | while the views agree and route ids are distinct, the cookie of a stored route with an id of 16 bits is carried by exactly one entry of the whole switch, the one of that route, unless an address has the id of the route in route position |
| RouterFlows.ExplainedCookie | network/ryu/app/rest_router.py:822-839 | with ids of 16 bits, the id class in the cookie of an entry tells which kind of entry it is and of which stored address or route |
| VlanRouters.VlanRouter.constructor | network/ryu/app/rest_router.py:598-613 | a new router starts with empty tables and the drop entry, and leaves the entries of other VLANs alone |
| RoutingTables.LongestMatchExists | network/ryu/app/rest_router.py:1377-1389 | a longest match exists if and only if some stored prefix contains the destination |
| VlanRouters.VlanRouter.ForwardsByLongestMatch | network/ryu/app/rest_router.py:778-797 | whenever the switch serves the tables, misfiled routes or not, one entry decides each packet to a destination outside the stored networks that some route matches: the one of the longest matching route, to its gateway once that is known; and when no entry is left over, the drop entry decides the others |
| VlanRouters.VlanRouter.ForwardsInside | network/ryu/app/rest_router.py:168-192 | which of the competing entries decides a packet to a destination inside a stored network: handling of the own address, switching, a learned host, a static route, learning; it does if and only if it is not the learning entry tied with a misfiled route |
| VlanRouters.VlanRouter.SetAddressData | network/ryu/app/rest_router.py:721-758 | an accepted address gets exactly its three entries and a gratuitous ARP, a refused one changes nothing; tables and entries stay in step whatever the id, the switch goes on serving the tables if and only if no network of length zero clashes with a misfiled route, and ids go on fitting the cookies if and only if this one has 16 bits and is not taken |
| VlanRouters.VlanRouter.SetRoutingData | network/ryu/app/rest_router.py:760-797 | when a route is accepted, and exactly what is stored and installed; no entry is left over if and only if the destination is not a zero-length prefix spelled otherwise than 0.0.0.0/0, whatever the id; the switch goes on serving the tables if and only if no network of length zero clashes with such a route; ids go on fitting the cookies if and only if this one has 16 bits and is not that of another route |
| VlanRouters.VlanRouter.DeleteFlow | network/ryu/app/rest_router.py:1705-1715 | OpenFlow 1.0 drops one entry, later versions every entry with the cookie |
| VlanRouters.VlanRouter.SelectRoutes | network/ryu/app/rest_router.py:886-898 | the entries picked for deletion are those of this VLAN whose cookie has the asked route id |
| RouterDeletes.SelectedRouteIff | network/ryu/app/rest_router.py:886-898 | the entry of a route is picked if and only if its id is asked for and has 16 bits; the entry of an address is picked if and only if its id, shifted by 16 bits, reads as an asked route, which for a request for all means longer than 16 bits |
| VlanRouters.VlanRouter.DeleteRoutingData | network/ryu/app/rest_router.py:875-922 | while the switch serves the tables, for any ids, repeated or long, exactly the routes whose id is asked for and has 16 bits go; except for id 0, exactly the entries whose cookies read as an asked route go and the drop entry takes the place of one at the bottom, so that the switch goes on serving the tables if and only if no address reads as an asked route; a request for id 0 keeps the views in step if and only if moreover it spares the drop entry or the entry of the default route; entries of others are lost only to id 0 |
| RouterDeletes.SparedInEveryOrder | network/ryu/app/rest_router.py:900-914 | a request for id 0 spares the bottom entry for every listing order if and only if, with a default route, no entry with the cookie of the drop entry has its priority, and without one, deletion is strict or all of them have it |
| VlanRouters.VlanRouter.ChkAddrRelationRoute | network/ryu/app/rest_router.py:924-937 | the ids reported are those of the asked addresses that hold the gateway of a route |
| VlanRouters.VlanRouter.SelectAddresses | network/ryu/app/rest_router.py:821-839 | the entries picked for deletion, for one id or for all |
| VlanRouters.VlanRouter.DeleteAddressData | network/ryu/app/rest_router.py:811-856 | while the switch serves the tables, for any ids, exactly the asked addresses go of which none with the same id holds a gateway, all of them meaning those of 16 bits; the switch goes on serving the tables if and only if the request is refused or its id is not a route id of 16 bits times 65536, and the views stay in step if and only if moreover it is not 0 under the drop entry; entries of others are lost only to id 0; gateways stay covered whatever the switch lists |
| RouterSteps.ForeignKeptIff | network/ryu/app/rest_router.py:453-466 | entries that are not of this VLAN survive a deletion if and only if the asked id is not 0 or none of them has the cookie of this VLAN, as the ARP and switching entries of the enclosing router have that of VLAN 0 |
| VlanRouters.VlanRouter.UpdateRoutingTbl | network/ryu/app/rest_router.py:1164-1191 | an ARP message of a gateway enters its MAC into exactly the routes that use it, turns exactly the entries of those that did not know it into entries that forward to that MAC, and changes nothing else |
| VlanRouters.VlanRouter.PacketInArp | network/ryu/app/rest_router.py:969-980 | a gateway updates routes and their entries, any other host of a stored network gets its own entry, which forwards to its MAC, a stranger changes nothing, entries of others are untouched, and the views stay in step |
| VlanRouters.VlanRouter.ExpireHost | network/ryu/app/rest_router.py:1206-1211 | the idle timeout of a learned host, at any moment, removes that entry alone and keeps the switch serving the tables and the views in step |
| VlanRouters.VlanRouter.SendArpAllGw | network/ryu/app/rest_router.py:1127-1131 | in every reachable state, after any requests, the address lookup succeeds for every gateway, and each request comes from the address of the router in that network |
| BfdSessions.BfdSession.Recv | network/ryu/lib/bfdlib.py:229-309 | the chain of tests is the state machine of section 6.2 of RFC 5880, with the timers and flags of section 6.8.6, and an event is announced exactly when the state changes; after a packet that says AdminDown the session is neither Init nor Up, and one that was Up is Down because its neighbour signalled it |
| BfdSessions.RecvMeans | network/ryu/lib/bfdlib.py:229-309 | from which states, on hearing which, a session becomes or stays Down, Init or Up, with the diagnostic, the transmit interval and the detection time that go with it |
| BfdSessions.BfdSession.SetState | network/ryu/lib/bfdlib.py:311-335 | the fields a state change touches, and its event |
| BfdSessions.BfdSession.Timeout | network/ryu/lib/bfdlib.py:337-364 | an expired detection timer takes a session down, unless it is down already |
| BfdSessions.BfdSession.Send | network/ryu/lib/bfdlib.py:410-495 | what a packet carries and which flags are cleared by sending it |
| BfdSessions.PollAnswered | network/ryu/lib/bfdlib.py:273-309 | no packet has both Poll and Final, an accepted Poll is answered by the next packet, and an accepted Final ends polling unless the state changes with it |
| BfdProtocol.LinkRunKeeps | network/ryu/lib/bfdlib.py:249-271 | over lossless FIFO channels every run keeps the invariant of both directions and moves both states only upwards |
| BfdProtocol.FreshPairOnlyClimbs | network/ryu/lib/bfdlib.py:249-271 | from a fresh pair, at every moment of every run: queues climb, states climb, and a side that is Up stays Up with no Down packet queued towards it |
| BfdProtocol.UpStaysReachable | network/ryu/lib/bfdlib.py:387-495 | after any run of a fresh pair some continuation brings both sides Up, if neither asks for silence or has a zero detection multiplier |
| BfdProtocol.BothUpReachableIff | network/ryu/lib/bfdlib.py:387-408 | after any run of a fresh pair both sides can still come Up if and only if neither asks for silence and neither has a zero detection multiplier |
| BfdProtocol.NetRunKeeps | network/ryu/lib/bfdlib.py:229-271 | with loss, duplication, reordering and timeouts at any moment every run keeps the invariant |
| BfdProtocol.UpMeansThreeWay | network/ryu/lib/bfdlib.py:891-923 | over that network an Up side has heard its peer and was heard by it, asks for its configured transmit interval and every other side for the slow one (section 6.8.3 of RFC 5880), and an Init or Up packet ever sent is discarded if and only if it has a zero detection multiplier |
| BfdProtocol.UpOnlyIfNamed | network/ryu/lib/bfdlib.py:885-923 | only a packet that carries the discriminator of a session brings it Up; a packet without a discriminator of its own or without a detection multiplier, one for another session, and one for none from a peer in Init or Up change nothing |
| BfdAdminDown.ToldStaysDown | network/ryu/lib/bfdlib.py:250-256 | over FIFO channels, with both sides free to be taken down administratively at any moment and to go on sending: such a side stays so, and once its peer has accepted a packet that it sent since, the peer is Down, or was taken down itself, at every moment of every continuation |
| BfdAdminDown.PeerCanBeTold | network/ryu/lib/bfdlib.py:387-408 | after any run, a side taken down that may send and has a detection multiplier can bring such a packet to its peer |
| IgmpQueriers.FlowsDetermined | network/ryu/lib/igmplib.py:370-444 | the invariant leaves only one flow table for a membership map |
| IgmpQueriers.IgmpQuerier.DoReport | network/ryu/lib/igmplib.py:398-424 | a report makes the port a member that has answered and leaves other memberships alone; the entry of the server then leads exactly to the members; every entry still follows the membership if and only if the port is not the port of the server, where the entry of the server is overwritten to lead to the controller |
| IgmpQueriers.IgmpQuerier.DoLeave | network/ryu/lib/igmplib.py:426-444 | at once the port is no member and has no entry, all other members stay, and the entry of the server leads exactly to them, or is gone with the last |
| IgmpQueriers.IgmpQuerier.ResetReplies | network/ryu/lib/igmplib.py:360-363 | the reset before a query clears every answer and nothing else |
| IgmpQueriers.IgmpQuerier.Sweep | network/ryu/lib/igmplib.py:370-393 | the sweep leaves exactly the members that answered and the groups that have any, the entries of the others are gone, and the flow table follows |
| IgmpQueriers.IgmpQuerier.SweepGroup | network/ryu/lib/igmplib.py:373-391 | one group of the sweep, entry by entry |
| IgmpQueriers.WindowAnswers | network/ryu/lib/igmplib.py:409-413 | within the response window a port has answered if and only if it reported and has not left since |
| IgmpQueriers.MembersAfter | network/ryu/lib/igmplib.py:398-444 | after any interleaving of reports and leaves, a port is a member if and only if it reported and has not left since, or was a member before and has not left at all |
| IgmpQueriers.RoundSurvivors | network/ryu/lib/igmplib.py:359-393 | for every interleaving of reports and leaves, a member survives a round if and only if it reported after the reset and has not left since, and the groups left are those with such a member |
| IgmpSnoopers.IgmpSnooper.DoQuery | network/ryu/lib/igmplib.py:557-595 | a query resets answers; entries stay right if and only if the querier port is the known one or neither port has entries |
| IgmpSnoopers.IgmpSnooper.DoReport | network/ryu/lib/igmplib.py:597-666 | the whole record of the group afterwards, the entries, the events and whether the report is passed on; marked ports stay within the outputs of the querier entry, and those within the recorded ports; the reporting port has its own entry afterwards if and only if it was not recorded by a LEAVE before |
| IgmpSnoopers.IgmpSnooper.DoLeave | network/ryu/lib/igmplib.py:668-718 | a leave unmarks the port and changes no entry; a port that was not recorded is recorded without one |
| IgmpSnoopers.IgmpSnooper.RemoveMulticastGroup | network/ryu/lib/igmplib.py:779-803 | exactly the entries of the group and of its recorded ports go, and its removal is announced |
| IgmpSnoopers.IgmpSnooper.TimeoutForQuery | network/ryu/lib/igmplib.py:730-747 | after the timeout exactly the groups without an answer are gone, with their entries |
| IgmpSnoopers.IgmpSnooper.TimeoutForLeave | network/ryu/lib/igmplib.py:749-777 | after the timeout the port is gone unless it reported again, and the group with its last port; a timeout that comes too late changes nothing |
| RecvLoops.FramingUnique | network/ryu/controller/controller.py:343-383 | a byte stream has at most one framing into messages of length max(8, header length) and an incomplete rest |
| RecvLoops.FrameIff | network/ryu/controller/controller.py:343-383 | a byte sequence is one message if and only if its length is the number in its third and fourth byte, in network byte order, or 8 where that number is smaller |
| RecvLoops.FramesReceived | network/ryu/controller/controller.py:343-383 | any list of frames comes out again as sent, however the stream was cut |
| RecvLoops.RecvLoop | network/ryu/controller/controller.py:320-383 | for every way recv splits the stream, the messages are the framing of the bytes received, and the inner loop ends |
| Mailboxes.RunConserves | network/ryu/controller/controller.py:283-284 | in every run, free permits, queued messages, permits of senders and of the loop add up to the capacity, and accepted messages are those taken, queued or thrown away, in order |
| Mailboxes.NeverFullNeverOverflows | network/ryu/controller/controller.py:385-426 | with any number of senders, put never finds the queue full and release never exceeds the bound |
| Mailboxes.SendsAreFifo | network/ryu/base/app_manager.py:281-303 | what the loop took is a prefix of what was accepted, and until a shutdown the rest is queued; after it every send is refused |
| Mailboxes.HistoryMeans | network/ryu/controller/controller.py:385-426 | in every run, the accepted messages are those that a holder of a permit put before the shutdown, in order, and what was taken is counted by the takes |
| Mailboxes.PermitsComeBack | network/ryu/controller/controller.py:401-413 | after a shutdown some continuation brings every permit back |
| Mailboxes.WithoutAcquiresAllComeBack | network/ryu/controller/controller.py:401-426 | after a shutdown every run without new acquires is no longer than the queue and the waiting senders together, and nothing but an acquire can follow it if and only if all permits are free, so no sender stays blocked |
| Mailboxes.SendQueue.AcquirePermit | network/ryu/controller/controller.py:417-417 | taking a permit is a step of the protocol |
| Mailboxes.SendQueue.PutOrReleasePermit | network/ryu/controller/controller.py:418-426 | the rest of send is a step of the protocol; the message joins the end of the queue and is reported as enqueued if and only if no shutdown came before, and otherwise the permit goes back |
| Mailboxes.SendQueue.TakeNext | network/ryu/controller/controller.py:388-389 | one round of the sending loop is two steps of the protocol and returns the oldest message |
| Mailboxes.SendQueue.ShutdownAndDrain | network/ryu/controller/controller.py:401-413 | the drain empties the queue and gives back every permit that no sender holds |
| AppLoops.WeightUnfolds | network/ryu/base/app_manager.py:436-437 | what one loaded application appends weighs less than its own dependency tree, part of the measure by which the loop ends |
| AppLoops.AllServicesMean | network/ryu/base/app_manager.py:418-437 | what an application needs is each service of its own and each service of a context of it that is an application, and nothing else |
| AppLoaders.AppManager.EnterContexts | network/ryu/base/app_manager.py:421-428 | the contexts are entered without losing a binding, or the first clash stops it |
| AppLoaders.AppManager.ToAdd | network/ryu/base/app_manager.py:430-437 | exactly the services outside context modules and outside the list are appended, each once |
| AppLoaders.AppManager.LoadApps | network/ryu/base/app_manager.py:402-437 | unless some order of the dependencies leads into a trap the loop ends; on success every dependency of a loaded application and every requested name is loaded, provided by a context module or without application class, and each context of each application loaded by this call is bound to the very class it names; earlier bindings stand and nothing else is bound, also on failure; nothing outside any set is loaded that holds the requested names and what its members need; failure means a clash of contexts |
| AppLoops.NeverEndsIffTrapAhead | network/ryu/base/app_manager.py:406-437 | the loop can go on for ever if and only if some order of the dependencies leads to a state where the list holds one of a set of applications that each need another of the set, none of them in a module that provides a context now or later, and nothing that will be loaded clashes |
| AppLoops.PlainEndsIffAcyclic | network/ryu/base/app_manager.py:406-437 | in a catalogue whose context modules define no application and whose contexts do not clash, the loop can go on for ever if and only if dependency is not acyclic on what the requested names need |
| AppLoops.AcyclicIffNoRing | network/ryu/base/app_manager.py:406-437 | dependency is acyclic on what the names need if and only if no set of applications that each need another of the set holds one of the names |
| AppLoops.AcyclicMeetsNoTrap | network/ryu/base/app_manager.py:406-437 | acyclic dependency keeps the loop clear of traps in every catalogue |
| AppLoops.MutualNeedNeverEnds | network/ryu/base/app_manager.py:406-437 | two applications that need each other can keep the loop going for ever |
| AppLoops.CycleThroughContextEnds | network/ryu/base/app_manager.py:406-437 | two applications that need each other do not, where a context class of the first lives in the module of the second |
| OfctlStrings.TokenizeParenBlock | network/ryu/lib/ofctl_string.py:76-86 | the cut is where the parentheses open at the position are closed for the first time, and none is found if they never are |
| OfctlStrings.Tokenize | network/ryu/lib/ofctl_string.py:89-116 | the nested loops end on every input and compute the decomposition, or fail where there is none |
| OfctlStrings.SplitIffTokenizes | network/ryu/lib/ofctl_string.py:89-116 | the result is a list if and only if the input is the comma-join of these well-formed tokens up to one trailing comma; so the list is unique, and failure means that there is none |
| OfctlStrings.JoinThenSplit | network/ryu/lib/ofctl_string.py:89-116 | a joined list of tokens splits back to itself if and only if it is empty or its last token is not, and otherwise loses just that token |
| OfctlStrings.TokenIsBalanced | network/ryu/lib/ofctl_string.py:76-86 | every token is balanced and has no comma outside parentheses |
| OfctlStrings.OnlyBalancedSplits | network/ryu/lib/ofctl_string.py:107-114 | unbalanced input is rejected |
| MrtPeers.PeerRoundTrip | network/ryu/lib/mrtlib.py:573-617 | parsing a serialized peer and anything after it gives the peer with its type fixed up and leaves the rest if and only if it is not an IPv4 peer with the IPv6 bit |
| MrtPeers.ParsedPacksBack | network/ryu/lib/mrtlib.py:573-617 | a parsed peer serializes to the bytes it came from |
| MrtPeers.TableRoundTrip | network/ryu/lib/mrtlib.py:490-527 | a serialized peer index table is read back with lengths, counts and types fixed up if and only if each of its peers is |
| MrtPeers.PeerLayout | network/ryu/lib/mrtlib.py:573-617 | where the fields of a serialized peer are, in network byte order, and that the two bits of its type tell the sizes of its address and of its AS number |
| MrtPeers.PackedTableLayout | network/ryu/lib/mrtlib.py:511-527 | where the fields of a serialized table are: the number of bytes of its name and the number of its peers stand before them |
| MrtPeers.MrtPeer.Parse | network/ryu/lib/mrtlib.py:573-597 | the parse of one peer, and when it fails |
| MrtPeers.MrtPeer.Serialize | network/ryu/lib/mrtlib.py:599-617 | the bytes of one peer and the bits set in its type |
| MrtPeers.PeerIndexTable.Parse | network/ryu/lib/mrtlib.py:490-509 | the parse of a table, and when it fails |
| MrtPeers.PeerIndexTable.Serialize | network/ryu/lib/mrtlib.py:511-527 | the bytes of a table and the fields it fixes up, also where one peer object stands in it twice |
| MrtRecords.RecordRoundTrip | network/ryu/lib/mrtlib.py:106-138 | a serialized record is read back whatever follows; with the extended header its microseconds and its length come back exchanged, so it is unchanged if and only if they are equal |
| MrtRecords.WireLayout | network/ryu/lib/mrtlib.py:106-138 | where the fields of a serialized record are, in network byte order; the length is that of the body without the extended header |
| MrtRecords.NextOfWire | network/ryu/lib/mrtlib.py:1300-1311 | the reader gets the record it stands at, and then stands at the next if and only if nothing follows or the type is not one of the two that only the length calculation takes as extended |
| MrtRecords.FileRoundTrip | network/ryu/lib/mrtlib.py:1300-1311 | a file of records, none but the last of those two types, is read back record by record |
| MrtRecords.FileRoundTripIff | network/ryu/lib/mrtlib.py:1300-1311 | if parsed messages are as long as they are when serialized again, a file of records is read back if and only if none but the last is of those two types |
| MrtRecords.ReadBackByChance | network/ryu/lib/mrtlib.py:88-104 | with a codec that ignores the message, a misplaced reader can find the next record by chance |
| MrtRecords.CommonFileReadBack | network/ryu/lib/mrtlib.py:1300-1311 | a file of records with common headers is read back as it was written |
| MrtRecords.ShortRecordIsLost | network/ryu/lib/mrtlib.py:88-104 | behind a record of those two types a short last record is never read |
| MrtRecords.TwoComeBackAsOne | network/ryu/lib/mrtlib.py:88-104 | two empty records of type 33 are read back as one |
| MrtRecords.MrtRecord.Serialize | network/ryu/lib/mrtlib.py:130-138 | the bytes of a record and the fields it fixes up: the length, and the timestamp only where it has none |
| MrtRecords.Writer.Write | network/ryu/lib/mrtlib.py:1365-1370 | the file grows by exactly the bytes of the record, which keeps its own timestamp |
| MrtRecords.Reader.NextRecord | network/ryu/lib/mrtlib.py:1300-1311 | one step of the reader, from the position after the last |
| MrtRecords.WriteEach | network/ryu/lib/mrtlib.py:1365-1370 | records written one by one, objects that stand in the list twice included: the file is their concatenation with lengths fixed up, and only a record without a timestamp gets one, from the clock of its first writing |
| MrtRecords.ReadEach | network/ryu/lib/mrtlib.py:1300-1311 | iterating the reader until it stops yields the whole reading of the stream, or fails where it fails |
| MrtRecords.WriteThenRead | network/ryu/lib/mrtlib.py:1300-1370 | a list of records given to the writer one by one is read back in order, none but the last being of the two types above; each that had a timestamp comes back with that one, and those with a common header come back as written with their lengths fixed up |
| NetworkRegistry.Network.UpdateNetwork | network/ryu/controller/network.py:366-368 | a network is there afterwards, and the indexes keep agreeing |
| NetworkRegistry.Network.CreateNetwork | network/ryu/controller/network.py:370-372 | a network is created unless it exists, and the indexes keep agreeing |
| NetworkRegistry.Network.RemoveNetwork | network/ryu/controller/network.py:132-142 | the ports of the network, and only they, are announced as gone, then the network itself; the indexes keep agreeing if and only if it was empty |
| NetworkRegistry.Network.PortAdded | network/ryu/controller/network.py:520-525 | a new switch port is in no network; one that is known keeps its network |
| NetworkRegistry.Network.UpdatePort | network/ryu/controller/network.py:386-416 | when a port may enter or move, where it is then, and that refusals change nothing; the three indexes keep agreeing, and the events tell them, if and only if it has no MAC address or stays in its network |
| NetworkRegistry.Network.RemovePort | network/ryu/controller/network.py:428-445 | the indexes keep agreeing if and only if the named network is the one the port is in, or the port is absent, or it has neither network nor MAC address |
| NetworkRegistry.Network.PortDeleted | network/ryu/controller/network.py:527-528 | the indexes keep agreeing if and only if the port is absent, or has neither network nor MAC address |
| NetworkRegistry.Network.CreateMac | network/ryu/controller/network.py:456-458 | the indexes keep agreeing if and only if the port is in the named network and has no other MAC address: the index is written before the checks |
| NetworkRegistry.Network.UpdateMac | network/ryu/controller/network.py:460-467 | the indexes keep agreeing if and only if the call fails or the port is in the named network |
| NetworkRegistry.Network.MacsRemovePort | network/ryu/controller/network.py:335-341 | exactly one port leaves one entry of the address index |
| DpSets.DPSet.Register | network/ryu/controller/dpset.py:200-232 | a switch enters once, with its ports; a further connection of it replaces and closes the older one, keeps the ports, and does not enter again |
| DpSets.DPSet.Unregister | network/ryu/controller/dpset.py:234-251 | the end of a replaced connection changes nothing; the end of the current one makes its switch leave, and no deletion of a port fails |
| DpSets.DPSet.PortStatus | network/ryu/controller/dpset.py:298-323 | the port state after an addition, deletion or change, and when it fails |
| DpSets.FromListMeans | network/ryu/controller/dpset.py:200-232 | each port of a list stands in the port state with the attributes it was listed with last |
| DpSets.StrictlyAlternates | network/ryu/controller/dpset.py:200-251 | the enter and leave events of each switch alternate, starting with enter |
| DpSets.PresentIsLast | network/ryu/controller/dpset.py:200-251 | a switch is present if and only if the last of its events is enter |

## Left out

- VlanRouters.VlanRouter.DeleteRoutingData: where entries are missing on the switch, which rows go is not
  stated beyond that gateways stay covered. For id 0 the exact condition is stated from states in which no
  entry is left over.
- VlanRouters.VlanRouter.DeleteAddressData: likewise, which rows go is stated while the switch serves the tables.
- MrtRecords.FileRoundTripIff: the exact condition is for codecs that keep lengths; for others the condition
  is sufficient (`FileRoundTrip`), and `ReadBackByChance` shows that it is not necessary.
- MrtPeers.TableRoundTrip: the view name is taken in its encoded form; UTF-8 is not part of this model.
- AppLoaders.AppManager.LoadApps: names arrive already split at commas, and what a module on disk defines is
  a parameter; an application's services are given, not collected from its handlers.
- DpSets.DPSet.Register: the ports of a connection are a list, as its port dictionary yields them.
- IgmpSnoopers.IgmpSnooper.DoReport: packets sent on to ports are left out, except that it says whether the
  report is forwarded.
- BfdProtocol.UpMeansThreeWay: sessions are already paired; choosing a session for a packet with a zero Your
  Discriminator, by switch and port, is left out.
- BfdAdminDown.ToldStaysDown: nothing in the repository takes a session down administratively; the step is
  `_set_state` with that state. Timeouts and lost packets are not part of these runs.
- BFD demand mode (the remote session state is never updated, so its branches do nothing), authentication,
  jitter and the length of intervals; a timer may expire at any moment once it runs.
- Removing a whole VLAN router, VLAN-to-VLAN interaction, ICMP, and the contents of ARP and IP packets.
- Packets that the router suspends until an ARP reply comes, with their timers.
- Text forms of addresses and REST parsing: a destination is its two numbers and whether it is spelled as a key.
- The exceptions of a message parser inside the receive loop, socket errors, TLS and green-thread scheduling.
- MRT message bodies other than the peer index table are any codec; BGP and OSPF packets are not modelled.
- Queries of the registries that only read, and the isolation filters built on them.
- Firewall, QoS, VTEP, LACP, tunnel and simple-switch applications, REST routing and command-line tools: their
  claims are about single branches or repeat the cookie arithmetic above.
