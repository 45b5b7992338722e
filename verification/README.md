# Galaxy42 / tunserver: a verified model

Galaxy42 builds a virtual IPv6 network out of peer-to-peer tunnels: a node reads packets from a TUN device, encrypts
them for the node whose address is the hash of its public key, and other nodes relay them. This project models the
hardest parts of that program in Dafny and proves what they are for. Nothing here runs the program.

## The parts

**The old loop as a network.** `NodeModel` says what one node does with one input (a frame from TUN, a datagram, a peer
operation), as functions on values. `TunServer` is the same node in the program's own form: objects for the peer, the
search, the routing manager and the server, whose methods update their fields, each proved equal to its function in
`NodeModel`. `Network` puts any number of honest nodes and a bag of datagrams side by side; an event is an input at one
node, the delivery of one datagram, its loss, or its duplication. Proved over every run:

* stored routes never form a loop (`LoopFreedom`);
* data from TUN can reach its destination by deliveries if and only if its forwarding path has at most five sends
  (`Arrival`), and is never dropped while the rest of the network goes on (`Delivery`, `ForwardingPath`, `TunToTun`); a
  path also needs every receiver to have the sender among its peers, since a node drops data from a sender it does not
  recognise;
* what each message achieves: `Effects` says for any node exactly what each input sends, to whom, and what is learned;
  `Exchange` says what follows between honest nodes: a frame for an unknown destination asks every peer, a peer that can
  answer gives it a route, a chain and a tunnel in three events, and a ping introduces its sender;
* every stored route and every reply in flight carries the key of the destination itself (`RouteKeys`);
* a banned address is no peer, whatever arrives, until the user adds it again (`Bans`);
* the query flood ends: every delivery lowers a measure, except a dummy packet that two tunnel-less endpoints return to
  each other, and those can indeed go on for ever (`Flood`, with `PacketSums`);
* data is relayed at most five times whatever the tables say (`RelayBound`), searches ask at the TTL they should
  (`SearchBookkeeping`), and the peer tables stay consistent under any input (`NodeFacts`).

**Bytes.** `SerialFormat` and `Codecs` define the byte formats and prove the round trips; `Serializer` has the generator
that appends to a string and the parser that moves a cursor, proved against them. `WireFormat` has the four datagrams,
their writers and their readers. `Reception` reads a datagram into the server. `EndToEnd` follows one frame from TUN
through encryption, encoding and any number of relays to TUN.

**The Neighbor Advertisement.** `Ndp` has the ones-complement checksum on byte-swapped words (section 2.3 of RFC 4443,
section 8.1 of RFC 2460, RFC 1071) and both builders of the message of section 4.4 of RFC 4861.

**Threads.** `WeldPool` is the buffer pool between TUN readers and UDP senders as a machine of interleaved steps;
`WeldBuffers` has the welds as objects. `StartBarrier` is the benchmark's barrier, with condition variables, lost-wakeup
freedom and a bound on every run.

**Parsers.** `DataEater` is the RPC stream reassembler with the client that frames and checks messages.
`PeerReference` is the parser of peer references.

## What turned out not to hold

* `DummyPacketReturns`: two peers without a tunnel to each other return one dummy packet for ever, in a state that
  `DummyIsReached` reaches from an empty network; `DeliveryDecreases` shows that a delivery fails to make progress exactly
  in that case, told by the tables of the receiver.
* `OrdersIffAgreeing`: the comparison that the source gives to its map of requesters is a total order exactly on
  requesters of whom no two disagree in address and mode; a disagreeing pair is put before each other
  (`ReasonOrderConflict`). The map is modelled by equality of keys, which is what it does on agreeing requesters.
* `QueryReaderIsExact`: a query whose address has a `;` among octets 2 to 15 is refused by its reader, although nothing
  escapes it in the writer.
* `VarstringReadsBack`: a string over fifty million bytes can be written and not read back.
* `PushIntegerUvarint`: the one refused value, 2^64 - 1, leaves its marker octet in the string.
* `AllFramesIffKeepsUp`: the commands are all complete frames of the stream if and only if no stretch of chunks at the end
  completes more frames than it has chunks. Chunks of at most 66 octets always keep up; with 67 they need not
  (`LargerChunksCanLag`).
* `HandledOnceIffKeepsPace`: each command is executed once, in order, if and only if from the first complete frame on
  every chunk finds another one complete; otherwise there are more executions than commands, because the newest command is
  never removed.
* `SentIsReceived`: an empty message is sent but makes the receiver drop the connection.
* `AcceptedExactly`: a peer reference may end in a dangling `@(`, with at most one character after it.
* `LeakedForever`: a read that throws leaves its weld reserved for ever.
* `OddIsRightIff`: for an odd length the checksum is right if and only if the last octet and the octet behind it are zero.

## Where the code and its own text disagree

The model follows the code.

* src/tunserver.cpp:1391 says that bad routing can hang the program because there is no TTL field yet; there is one, and
  `AtMostFiveRelays` is what it gives.
* src/tunserver.cpp:1700 and 1734 describe a reply as TTL, cost and address; it also carries the key, and all its
  delimiters are semicolons.
* src/trivialserialize.hpp:99-100 allows a string of 2^(8 S) - 1 octets behind S octets of length; the writer refuses that
  size (`SizedReadsBack`). Line 114 allows any length below 2^64 for the dynamic form; the reader stops at fifty million.
* src-gui/qtest/t_dataeater.hpp feeds frames without authenticators and expects the commands; the code waits for 64 more
  octets.

## Reading the model

Addresses are sixteen octets, bytes are integers below 256, and exceptions, failed assertions and refused inputs are
values of `Result` or `Option`. Cryptography is a record of functions: the address of a key, the check of a signature,
and the two ends of a tunnel; theorems that need opening to undo closing say so. Time, and the socket a datagram leaves
through, do not appear. In `Network` a user's peer reference pairs an address with the physical address of the node
that has it, and every node has its own.

## Model

| member | source | states |
|---|---|---|
| `LoopFreedom.RoutesNeverLoop` | src/tunserver.cpp:264-332 | in every reachable state of a network of honest nodes, following stored next hops from any node that has a route to a destination reaches it |
| `LoopFreedom.LoopFreedomKept` | src/tunserver.cpp:264-278 | one event keeps loop freedom, because entries are write-once and a learned one comes from a node that had one |
| `LoopFreedom.NewRouteHasChain` | src/tunserver.cpp:1755-1769 | a route that an event adds, direct or learned from a reply, has a chain to its destination |
| `LoopFreedom.FlightStaysBacked` | src/tunserver.cpp:1692-1717 | every datagram in flight was sent by a node that still stands by it: a reply by a holder of the route, `public_hi` by its owner |
| `LoopFreedom.InvAlways` | src/tunserver.cpp:1449-1775 | the invariant of honest runs holds after every run |
| `LoopFreedom.EveryQueryAsksAtFive` | src/tunserver.cpp:1678-1695 | in honest runs every query in flight carries TTL 5, every search should use 5 and every stored cost is 1 |
| `Network.ChainGrows` | src/tunserver.cpp:264-278 | a chain of next hops survives every later event, because routes are write-once |
| `Delivery.NextHopsArePeers` | src/tunserver.cpp:1764-1767 | while no peer is deleted, every stored next hop is a peer that has this node as a peer |
| `Delivery.AcquaintedAlways` | src/tunserver.cpp:693-747 | who knows whom: a peer whose key is known has this node as a peer, after every run without deletion |
| `Delivery.PeersOnlyGrow` | src/tunserver.cpp:716-739 | without peer operations an input only adds peers, and a key only with its owner's `public_hi` |
| `Arrival.DeliveredIffPathAtMostFive` | src/tunserver.cpp:949-1022 | after any run without deletion, a frame read from TUN (TTL 5), of which no copy is in flight, can reach its destination by deliveries of its copies, whatever is lost or duplicated, if and only if its forwarding path, direct peer first and stored next hop second, has at most five sends |
| `Arrival.ArrivesWithinTtl` | src/tunserver.cpp:1594-1616 | a copy that a node has sent with any TTL up to 5 can reach its destination by deliveries if and only if the node has a path of at most that many sends |
| `Arrival.NoArrivalWithoutPath` | src/tunserver.cpp:1486-1618 | in a run of deliveries of its copies, data arrives only if there was a path within its TTL where it began |
| `Arrival.SomeRunDelivers` | src/tunserver.cpp:1486-1618 | data under way reaches its destination in some run of deliveries |
| `Arrival.FrameIsSent` | src/tunserver.cpp:1394-1442 | a frame read from TUN goes to the first hop of the tables, or no data is sent, and peers and routes stay |
| `Arrival.RelayKeepsTrail` | src/tunserver.cpp:1591-1616 | a relay keeps peers and routes, and if what is left of its copy's way is a path within the TTL, so was the whole way |
| `NodeFacts.ForwardChoice` | src/tunserver.cpp:969-1000 | for any tables, the data goes to the destination if it is a peer, else to its stored next hop if that is one, else to the next hop stored for that one; it is sent exactly when the TTL is left and the tables lead to a peer |
| `ForwardingPath.PathWithinChain` | src/tunserver.cpp:965-992 | the forwarding path is never longer than the chain of next hops, and exists if and only if the destination knows the first node on the chain that lists it as a peer |
| `ForwardingPath.ConfirmedGivesPath` | src/tunserver.cpp:965-992 | once the handshake with a destination is complete, every stored route to it gives a path within its chain |
| `ForwardingPath.PathIsUnique` | src/tunserver.cpp:965-992 | a forwarding path has one length |
| `ForwardingPath.PathShrinks` | src/tunserver.cpp:264-278 | whatever else happens, the path of data under way can only get shorter |
| `ForwardingPath.NextLeg` | src/tunserver.cpp:1594-1616 | data under way that reaches a relay is under way again, with the same payload and a smaller TTL that still covers its path |
| `ForwardingPath.Launched` | src/tunserver.cpp:1394-1442 | data whose path has at most five sends is under way as soon as it is read from TUN |
| `ForwardingPath.NeverDropped` | src/tunserver.cpp:1486-1620 | no node drops data under way: after any run in which no copy of it is lost, no peer deleted and the destination added nowhere, it has arrived from a recognised sender, or a copy is still under way |
| `TunToTun.FrameReachesTun` | src/tunserver.cpp:1394-1620 | a frame whose path has at most five sends has, after any such run, whatever other datagrams are lost, been written unchanged to the destination's TUN device, or a copy is still under way |
| `TunToTun.ArrivalWrites` | src/tunserver.cpp:1537-1577 | data under way that reaches its destination is opened there and written to TUN |
| `TunToTun.TunnelsKept` | src/tunserver.cpp:750-764 | tunnels are write-once under every input |
| `Effects.PingReachesAll` | src/tunserver.cpp:900-913 | a ping sends the node's credentials exactly once to each peer, and nothing else |
| `Effects.UnknownIsAsked` | src/tunserver.cpp:308-327 | the first search for an unknown destination sends exactly one query to each peer, at the larger of 5 and the TTL asked, nothing else, and files the requester |
| `Effects.UnknownIsAskedOnce` | src/tunserver.cpp:322-327 | a further search for it sends nothing and counts the request |
| `Effects.PeerHasRoute` | src/tunserver.cpp:283-292 | a peer has a route exactly when its key is known: the stored one, else a direct one at cost 1 with that key, which is stored |
| `Effects.QueryAnswered` | src/tunserver.cpp:1689-1717 | a query with a TTL of 1 to 127 from a peer, for a goal that can be answered, gets exactly one reply, to that peer, with the TTL asked, the goal, and cost and key of the route then held |
| `Effects.QueryNotAnswered` | src/tunserver.cpp:1689-1725 | every other query gets no reply; for an unknown goal it asks every peer the first time, and otherwise does nothing |
| `Effects.ReplyTeaches` | src/tunserver.cpp:1755-1769 | a reply with a TTL leaves a route to the goal and a tunnel for the key: as the reply says if there was none, unchanged if there was; with TTL 0 it does nothing |
| `Effects.ForgedHiRefused` | src/tunserver.cpp:1638-1663 | credentials whose signature does not verify change nothing and send nothing |
| `Effects.HiAccepted` | src/tunserver.cpp:1638-1663 | credentials that verify make their owner a peer at the address they came from, with its key, unless it is banned and no peer, and open a tunnel unless there is one; nothing else changes |
| `Effects.RelayExactly` | src/tunserver.cpp:1591-1616 | data for somebody else is sent on exactly when its TTL is at least 2 and the tables lead to a peer, once, with its TTL less one and at most 5 |
| `Effects.RelayAsks` | src/tunserver.cpp:1591-1616 | data for an unknown destination makes the relay ask every peer for it on behalf of the source |
| `Effects.WrittenExactly` | src/tunserver.cpp:1556-1578 | exactly what the tunnel of the claimed source opens, of TCP, UDP or ICMPv6, with that source as its own source address, is written to TUN, with the frame header and this node as destination |
| `Effects.StrangeFrameIgnored` | src/tunserver.cpp:1402-1408 | a frame that is too short or not for a galaxy address does nothing |
| `Effects.FrameAsks` | src/tunserver.cpp:1410-1442 | a frame for an unknown destination asks every peer for it on the node's own behalf |
| `Exchange.FrameAsksAll` | src/tunserver.cpp:1394-1442 | after such a frame one more query to every peer is in flight |
| `Exchange.ReplyGivesRoute` | src/tunserver.cpp:1748-1769 | in an honest run a reply about an unknown goal gives its receiver a route through the node it came from, a chain to the goal, and the tunnel |
| `Exchange.QueryGetsReply` | src/tunserver.cpp:1689-1717 | delivering a query that can be answered puts exactly its reply in flight |
| `Exchange.PingIntroduces` | src/tunserver.cpp:876-913 | a ping with valid credentials, delivered to a peer that has not banned its sender, makes that peer know the sender's address and key, with a tunnel |
| `Exchange.RouteIsFound` | src/tunserver.cpp:1394-1769 | when some peer that knows this node can answer, a frame for an unknown destination leads in three events to a route through that peer with its key, a chain and a tunnel |
| `RouteKeys.KeysMatchFromTheStart` | src/tunserver.cpp:1708-1764 | in every reachable state every stored route and every reply in flight carries a key that hashes to the destination |
| `RouteKeys.KeyedKept` | src/tunserver.cpp:1708-1764 | one event keeps that |
| `Bans.AddedIsPeer` | src/tunserver.cpp:389-405 | adding makes a peer and lifts its ban; a known peer keeps its address and key |
| `Bans.DeletedIsGone` | src/tunserver.cpp:455-469 | deleting removes that peer and no other, and bans it exactly if asked to |
| `Bans.AllAreGone` | src/tunserver.cpp:471-483 | deleting all leaves no peer and bans exactly those that were, if asked to |
| `Bans.BanDecides` | src/tunserver.cpp:716-725 | a deleted peer that says `public_hi` again is a peer again if and only if it is not banned |
| `Bans.BannedStaysOut` | src/tunserver.cpp:693-739 | a banned address is no peer after any inputs, until the user adds it |
| `Flood.AskedAtMostOnce` | src/tunserver.cpp:309-328 | a node broadcasts a query for a destination at most once in any run, whatever it receives |
| `Flood.DeliveryDecreases` | src/tunserver.cpp:1480-1769 | every delivery decreases (node and destination pairs without a search, queries in flight, other datagrams by weight) lexicographically, unless it brings data with TTL left to an endpoint without the tunnel whose tables lead back to the sender: exactly then a dummy packet returns and the measure stays |
| `Flood.LossDecreases` | src/tunserver.cpp:1480-1769 | losing a datagram decreases the same measure |
| `Flood.OnlyBouncesGoOnForever` | src/tunserver.cpp:1480-1769 | an endless run of deliveries and losses, without new input or duplication, must contain the return of a dummy packet |
| `Flood.DummyPacketReturns` | src/tunserver.cpp:1537-1554 | two peers without a tunnel to each other return one dummy packet for ever: after two deliveries the network is as before |
| `Flood.DummyIsReached` | src/tunserver.cpp:1410-1423 | that state is reached from two nodes without peers: each adds the other, and one reads a frame for the other from TUN |
| `Flood.ForwardSets` | src/tunserver.cpp:949-1002 | forwarding either sends the one datagram and begins no search, or sends queries only and begins one search for each destination asked for |
| `RelayBound.AtMostFiveRelays` | src/tunserver.cpp:1594-1616 | from any TTL byte and through arbitrary tables, loops included, data is relayed by at most five nodes that are not its destination, and its payload does not change |
| `RelayBound.RelayOnce` | src/tunserver.cpp:1594-1616 | a relay sends the same payload on with the clamped TTL |
| `NodeFacts.ForwardFacts` | src/tunserver.cpp:949-1002 | forwarding recurses within its two levels, sends to peers only, sends the data at most once and keeps every table but routes and searches |
| `NodeFacts.LookupFacts` | src/tunserver.cpp:281-332 | a route lookup keeps peers, black list and tunnels, adds at most a direct route, and sends only queries of a search begun now |
| `NodeFacts.HandleFacts` | src/tunserver.cpp:1390-1780 | whatever the input, no route or search is forgotten or overwritten, a new route is direct or repeats a reply, and what is sent the new state backs |
| `NodeFacts.TablesAlwaysConsistent` | src/tunserver.cpp:389-483 | after any inputs peers and black list are disjoint, each stored key hashes to the address it is filed under, and each tunnel is filed under the address of its key |
| `NodeFacts.TablesKept` | src/tunserver.cpp:672-764 | one input of any kind keeps the tables consistent |
| `NodeFacts.HiPeers` | src/tunserver.cpp:1621-1664 | `public_hi` changes at most the peer entry filed under the sender's own key, and gives it the sender's physical address |
| `SearchBookkeeping.ShouldUseIsGreatest` | src/tunserver.cpp:219-239 | after any requests a search should use the larger of 5 and the greatest TTL asked for |
| `SearchBookkeeping.DetailIsGreatest` | src/tunserver.cpp:219-232 | the record of a requester is the greatest TTL it has asked with, and only requesters have a record |
| `SearchBookkeeping.NarrowingNeverFails` | src/tunserver.cpp:334-348 | for any received TTL byte the search TTL stays between 5 and 126, and every query sent carries it unchanged: the narrowing assertion never fails |
| `SearchBookkeeping.ReasonOrderConflict` | src/tunserver.cpp:247-251 | the comparison of requesters puts two of them before each other exactly when their addresses and modes disagree |
| `SearchBookkeeping.OrdersIffAgreeing` | src/tunserver.cpp:247-251 | for any total orders of addresses and modes, the comparison orders a set of requesters totally if and only if no two of them disagree in address and mode |
| `TunServer.Peering.SetPip` | src/c_peering.cpp:56-58 | changes the physical address and nothing else |
| `TunServer.Peering.SetPubkey` | src/c_peering.cpp:60-62 | sets the key and nothing else |
| `TunServer.RouteSearch.constructor` | src/tunserver.cpp:257-262 | a new search should use TTL 5 and has no requests |
| `TunServer.RouteSearch.AddRequest` | src/tunserver.cpp:219-239 | raises the requester's record and the TTL to use, each to the greater of old and new |
| `TunServer.RouteSearch.Execute` | src/tunserver.cpp:334-349 | sends one query to every peer, with the TTL narrowed to a byte |
| `TunServer.RoutingManager.AddRouteInfoAndReturn` | src/tunserver.cpp:264-278 | stores the route if the target has none, and returns the one stored |
| `TunServer.RoutingManager.DirectRoute` | src/tunserver.cpp:283-292 | the route to a peer with a key, stored; a peer without one has none |
| `TunServer.RoutingManager.StartSearch` | src/tunserver.cpp:312-327 | files a new search and asks all peers |
| `TunServer.RoutingManager.UpdateSearch` | src/tunserver.cpp:322-325 | adds the request to the search under way |
| `TunServer.RoutingManager.GetRouteOrMaybeSearch` | src/tunserver.cpp:281-332 | peers first, then known routes, then a search that is begun or updated; the new state, what is sent and the route are those of the model function |
| `TunServer.Server.AddPeer` | src/tunserver.cpp:672-681 | adds the peer if its address is new, and says whether it was |
| `TunServer.Server.AddPeerSimplestring` | src/tunserver.cpp:389-405 | adds the peer and takes it off the black list |
| `TunServer.Server.DeletePeer` | src/tunserver.cpp:430-442 | removes the peer, and says whether it was there |
| `TunServer.Server.DeletePeerSimplestring` | src/tunserver.cpp:455-469 | removes the peer and bans it if asked to |
| `TunServer.Server.DeleteAllPeers` | src/tunserver.cpp:471-483 | removes all peers and bans them all if asked to |
| `TunServer.Server.AddPeerToBlackList` | src/tunserver.cpp:683-691 | bans one address |
| `TunServer.Server.DeletePeerFromBlackList` | src/tunserver.cpp:444-453 | takes one address off the black list |
| `TunServer.Server.AddPeerAppendPubkey` | src/tunserver.cpp:693-747 | refuses a key that does not hash to the address; updates a known peer, adds an unknown one unless it is banned |
| `TunServer.Server.AddTunnelToPubkey` | src/tunserver.cpp:750-764 | opens a tunnel unless there is one |
| `TunServer.Server.ForeachPeerSend` | src/tunserver.cpp:916-924 | sends exactly one copy to each peer |
| `TunServer.Server.FindPeerBySenderPeeringAddr` | src/tunserver.cpp:1024-1028 | finds a peer with the sender's physical address, or none has it |
| `TunServer.Server.RouteDetail` | src/tunserver.cpp:949-1002 | chooses the next hop, recursing at most twice, and sends |
| `TunServer.Server.RouteTop` | src/tunserver.cpp:1004-1022 | forwards from level 0 and hides every exception |
| `TunServer.Server.HandleTunneledData` | src/tunserver.cpp:1536-1618 | opens data for this node and writes it to TUN, answers with a dummy packet when there is no tunnel, relays other data with the clamped TTL |
| `TunServer.Server.HandlePublicHi` | src/tunserver.cpp:1638-1663 | checks the signature, then adds or updates the peer and opens the tunnel |
| `TunServer.Server.HandleFindhipQuery` | src/tunserver.cpp:1678-1726 | looks up or searches, and replies with the route when there is one |
| `TunServer.Server.HandleFindhipReply` | src/tunserver.cpp:1748-1769 | opens the tunnel and stores the route through the sender, unless the TTL is below 1 |
| `TunServer.Server.ReceiveUdp` | src/tunserver.cpp:1468-1775 | recognises the sender, refuses unrecognised ones but for `public_hi`, and dispatches |
| `TunServer.Server.ReadTun` | src/tunserver.cpp:1394-1443 | encrypts and forwards a frame for a galaxy address, or triggers a search when there is no tunnel |
| `TunServer.Server.PeeringPingAllPeers` | src/tunserver.cpp:900-913 | sends the node's credentials to every peer |
| `Reception.ReceiveDatagram` | src/tunserver.cpp:1453-1775 | a datagram that parses is handled as its message; one that does not changes nothing, sends nothing and writes nothing |
| `SerialFormat.FixedReadsBack` | src/trivialserialize.hpp:258-288 | a field of S octets accepts exactly the values below 256^S - 1, and gives each back with any bytes after it |
| `SerialFormat.UvarintReadsBack` | src/trivialserialize.cpp:58-64 | exactly the values below 2^64 - 1 are accepted, on exactly 1, 3, 5 or 9 octets, and read back with any bytes after them |
| `SerialFormat.UvarintPrefixFree` | src/trivialserialize.cpp:58-64 | no encoding is a proper prefix of another |
| `SerialFormat.UvarintOctets` | src/trivialserialize.cpp:58-64 | a value below 253 is its own octet; any other has the marker 253, 254 or 255 and then its octets, high to low |
| `SerialFormat.VarstringReadsBack` | src/trivialserialize.cpp:66-69 | a string is read back exactly when it is at most the sane maximum long; a longer one trips the reader's assertion |
| `SerialFormat.VarstringEncodes` | src/trivialserialize.cpp:66-69 | a string is written exactly when its length is below 2^64 - 1 |
| `SerialFormat.SizedReadsBack` | src/trivialserialize.hpp:300-306 | a string behind a length of S octets is accepted exactly below 256^S - 1 and read back |
| `SerialFormat.DigitAt` | src/trivialserialize.hpp:279-287 | dividing by the divider and taking the remainder gives the octet of the big-endian form |
| `SerialFormat.BigEndianReadsBack` | src/trivialserialize.hpp:446-463 | a value below 256^S is recovered from its S octets |
| `Codecs.VectorReadsBack` | src/trivialserialize.hpp:237-242 | if an element codec reads back, so does the vector codec on it, itself a codec |
| `Codecs.MapReadsBack` | src/trivialserialize.hpp:244-251 | if key and value codecs read back, so does the map codec, in whatever order the map is written |
| `Codecs.MapReaderIsExact` | src/trivialserialize.hpp:420-443 | the map reader accepts exactly the inputs whose pairs can be read and have distinct keys, and yields their map |
| `Codecs.PairsAlternate` | src/trivialserialize.hpp:244-251 | the pairs of a map are written as the list in which each key is followed by its value |
| `Codecs.NestedStringsReadBack` | src/trivialserialize.cpp:216-234 | vectors of vectors of strings up to the sane maximum read back |
| `Codecs.StringReadsBack` | src/trivialserialize.cpp:216-223 | the string codec reads back if and only if the string is no longer than the sane maximum |
| `Serializer.MaxOfOctets` | src/trivialserialize.hpp:258-265 | one more than the maximum for S octets is 256^S |
| `Serializer.Generator.PushByteU` | src/trivialserialize.cpp:48-48 | appends one octet |
| `Serializer.Generator.PushBytesN` | src/trivialserialize.cpp:52-56 | appends the bytes, or fails its assertion when the size is not theirs |
| `Serializer.Generator.PushIntegerU` | src/trivialserialize.hpp:267-288 | the divider loop appends the big-endian form; a value that is too big writes nothing |
| `Serializer.Generator.PushIntegerUvarint` | src/trivialserialize.cpp:58-64 | appends the variable-length form; the one refused value leaves its marker |
| `Serializer.Generator.PushVarstring` | src/trivialserialize.cpp:66-69 | appends length and string |
| `Serializer.Generator.PushBytesSizeOctets` | src/trivialserialize.hpp:300-306 | appends a length of S octets and the string |
| `Serializer.Generator.PushVectorObject` | src/trivialserialize.hpp:237-242 | appends the size and each element; a failure leaves what was there before as a prefix |
| `Serializer.Generator.PushMapObject` | src/trivialserialize.hpp:244-251 | appends the size and each pair, key before value |
| `Serializer.Parser.OverString` | src/trivialserialize.cpp:87-90 | an empty string is refused |
| `Serializer.Parser.IsEnd` | src/trivialserialize.cpp:194-196 | says whether nothing is left to read |
| `Serializer.Parser.PopByteU` | src/trivialserialize.cpp:96-103 | takes one octet; at the end it fails and does not move |
| `Serializer.Parser.PopByteSkip` | src/trivialserialize.cpp:114-121 | takes the expected octet; a different one is put back |
| `Serializer.Parser.PopBytesN` | src/trivialserialize.cpp:123-134 | takes exactly n octets, or fails and does not move |
| `Serializer.Parser.SkipBytesN` | src/trivialserialize.cpp:136-146 | moves over exactly n octets, or fails and does not move |
| `Serializer.Parser.PopIntegerU` | src/trivialserialize.hpp:446-463 | the multiplier loop reads the big-endian value; a short input is read to its end before it is refused |
| `Serializer.Parser.PopIntegerUvarint` | src/trivialserialize.cpp:164-171 | reads the variable-length form |
| `Serializer.Parser.PopVarstring` | src/trivialserialize.cpp:173-177 | reads length and string, and asserts the sane maximum |
| `Serializer.Parser.PopBytesSizeOctets` | src/trivialserialize.hpp:470-474 | reads a length of S octets and the string |
| `Serializer.Parser.PopVectorObject` | src/trivialserialize.hpp:411-418 | reads the size and that many elements, or fails as the first element that cannot be read |
| `Serializer.Parser.PopMapObject` | src/trivialserialize.hpp:420-443 | reads the size and that many pairs, and refuses a repeated key |
| `Serializer.Parser.PopVectorString` | src/trivialserialize.cpp:185-192 | reads the size and that many strings |
| `Serializer.Parser.PopStrings` | src/trivialserialize.cpp:232-234 | the object reader of string vectors reads the same |
| `Serializer.Parser.PopStringsByName` | src/trivialserialize.hpp:420-443 | reads a map from strings to vectors of strings: readers nest |
| `Serializer.Parser.PopStringMaps` | src/trivialserialize.hpp:411-443 | reads a vector of maps, whatever the order in which they were written |
| `Serializer.StringConsumes` | src/trivialserialize.cpp:173-177 | the string reader only moves forward over its input |
| `Serializer.VectorConsumes` | src/trivialserialize.hpp:411-418 | if an element reader only moves forward, so does the vector reader |
| `Serializer.MapConsumes` | src/trivialserialize.hpp:420-443 | if key and value readers only move forward, so does the map reader |
| `WireFormat.WhatIsSentIsReceived` | src/tunserver.cpp:1459-1494 | each of the four datagrams is read as the very message that was written exactly when its strings are within the sane maximum and, for a query, its address has no semicolon in octets 2 to 15; any other is refused |
| `WireFormat.QueryReaderIsExact` | src/tunserver.cpp:1668-1678 | a query is accepted if and only if octets 2 to 15 hold no semicolon, octet 16 is one and a TTL octet follows; address and TTL are those octets |
| `WireFormat.ReadableEncodes` | src/c_peering.cpp:120-127 | every readable message can be written |
| `WireFormat.HeaderOctets` | src/c_peering.cpp:120-122 | every datagram begins with version 1 and command 2, 3, 10 or 11 |
| `WireFormat.OthersRefused` | src/tunserver.cpp:1460-1480 | a datagram that is too short, of a newer version, or of any other command is refused |
| `WireFormat.FieldOctets` | src/c_peering.cpp:120-127 | which octet of tunneled data, of a query, of a reply and of `public_hi` is what |
| `WireFormat.SendDataUdp` | src/c_peering.cpp:116-169 | writes version, command, both addresses, TTL, nonce and the data behind its length |
| `WireFormat.SendDataUdpCmd` | src/c_peering.cpp:171-178 | writes version and command in front of the body |
| `WireFormat.WriteQuery` | src/tunserver.cpp:334-345 | writes the address and the TTL octet, each followed by a semicolon |
| `WireFormat.WriteReply` | src/tunserver.cpp:1701-1711 | writes TTL, cost, address and key |
| `WireFormat.WriteHi` | src/tunserver.cpp:906-912 | writes session key, identity key and signature |
| `WireFormat.ParseData` | src/tunserver.cpp:1483-1494 | the cursor reads tunneled data exactly as the format says |
| `WireFormat.ParseHi` | src/tunserver.cpp:1625-1632 | the cursor reads the three strings of `public_hi` |
| `WireFormat.ParseReply` | src/tunserver.cpp:1736-1745 | the cursor reads a reply and checks its delimiters |
| `WireFormat.ParseDatagram` | src/tunserver.cpp:1459-1480 | refuses a newer version or an unknown command, and dispatches to the reader of the command |
| `EndToEnd.FrameArrivesUnchanged` | src/tunserver.cpp:1430-1577 | a frame of at least 44 octets (TUN header and IPv6 header) comes out with its packet unchanged after encryption, encoding, any number of relays, decoding and decryption, if and only if its protocol is supported and the receiver has the tunnel |
| `EndToEnd.FrameRestored` | src/tunserver.cpp:1563-1576 | putting the destination back and checking the source restores the packet |
| `EndToEnd.RelaysKeepData` | src/tunserver.cpp:1609-1616 | any relays, in any states, hand on addresses, nonce and data unchanged |
| `EndToEnd.RelayKeepsData` | src/tunserver.cpp:1591-1616 | one relay hands on addresses, nonce and data unchanged |
| `EndToEnd.SenderSends` | src/tunserver.cpp:1425-1442 | the datagram for a frame bears its addresses and the encryption of the packet without its destination |
| `EndToEnd.FrameIdentical` | src/tunserver.cpp:1564-1577 | the whole frame is identical if and only if it had the TUN header that is written back |
| `Ndp.ChecksumVerifies` | src/c_ndp.cpp:178-210 | for all addresses, every next header and every message of even non-zero length below 2^16 with a zero checksum field at an even offset, the stored checksum makes the ones-complement sum of big-endian words over pseudo-header and message 0xFFFF |
| `Ndp.SwapMultiplies` | src/c_ndp.cpp:184-194 | the sum of byte-swapped words is the network-order sum times 256, modulo 65535 |
| `Ndp.Fold` | src/c_ndp.cpp:206-207 | the fold ends, fits 16 bits, keeps the sum modulo 65535, and is zero only for zero |
| `Ndp.FoldLoop` | src/c_ndp.cpp:206-207 | the loop computes the fold |
| `Ndp.HtonlWords` | src/c_ndp.cpp:199-204 | the two halves of a swapped 32-bit number are its byte-swapped words |
| `Ndp.WordsInOrder` | src/c_ndp.cpp:184-209 | the code's order of addition gives the checksum of pseudo-header and message |
| `Ndp.Checksum` | src/c_ndp.cpp:178-210 | the checked overload computes the checksum for even sizes, cut to 16 bits; a size that is then zero, short addresses and an odd size below 2^16 are errors; a larger odd size gives the odd sum |
| `Ndp.ChecksumAt` | src/c_ndp.cpp:145-176 | the pointer overload computes the same checksum for even lengths, and the odd sum, with the octet behind, for odd ones |
| `Ndp.OddIsRightIff` | src/c_ndp.cpp:162-163 | for an odd length the result is the checksum of the message padded with zero if and only if the last octet and the octet behind the message are zero |
| `Ndp.AdvertisementVerifies` | src/c_ndp.cpp:138-142 | every advertisement carries a checksum that verifies, and MAC, target and destination where they belong |
| `Ndp.AdvertisementOctets` | src/c_ndp.cpp:16-47 | octet by octet: EtherType, version, payload length 40, next header 58, hop limit 255, type 136, code 0, flags R, S and O, and both link-layer options with their lengths |
| `Ndp.GenerateNeighborAdvertisement` | src/c_ndp.cpp:60-143 | the loop builder writes the advertisement for the MAC in octets 6 to 11, target 62 to 77 and destination 22 to 37 of the solicitation |
| `Ndp.Advertiser.constructor` | src/c_ndp.cpp:16-47 | the template has the fixed octets of an advertisement |
| `Ndp.Advertiser.CopySafeApart` | src/stdplus/tab.hpp:62-92 | copies n octets into the template, or refuses a source that ends too early and changes nothing |
| `Ndp.Advertiser.GenerateNew` | src/c_ndp.hpp:96-114 | patching the static template gives the advertisement for the given MAC, whatever calls came before, failed ones included |
| `Ndp.BothBuilders` | src/c_ndp.hpp:95-114 | the two builders return the same 94 octets if and only if the given MAC is the one in the solicitation |
| `Ndp.MacDecides` | src/c_ndp.hpp:99-103 | advertisements are equal if and only if their MAC addresses are |
| `WeldPool.PoolAlways` | src-tools/netmodel/netmodel.cpp:952-1026 | in every interleaving of readers and senders: a reserved weld has exactly one owner and any other none, an unreserved weld has fewer than 32 fragments and at least 9000 free bytes, fragment ends cut the data, and what was read is what was sent, held or in hand |
| `WeldPool.StepKeeps` | src-tools/netmodel/netmodel.cpp:1007-1026 | one step of any thread keeps all of it |
| `WeldPool.HolderIsAlone` | src-tools/netmodel/netmodel.cpp:1530-1541 | a reader holding a weld shares it with no reader, task or leaked read |
| `WeldPool.TaskIsAlone` | src-tools/netmodel/netmodel.cpp:1477-1508 | a posted or started send shares its weld with nobody |
| `WeldPool.PostedIsFrozen` | src-tools/netmodel/netmodel.cpp:1479-1507 | between posting and clearing the weld does not change; the completed send empties it |
| `WeldPool.OnlyFullWeldsAreSent` | src-tools/netmodel/netmodel.cpp:1013-1019 | in every run a weld that is posted or being sent has no room for another read |
| `WeldPool.DecidedExactly` | src-tools/netmodel/netmodel.cpp:1013-1024 | a decision frees the weld exactly if it has room and posts it otherwise, and leaves its data alone |
| `WeldPool.ReservedExactly` | src-tools/netmodel/netmodel.cpp:1530-1549 | a reader gets a weld exactly when one is free with room: the lowest |
| `WeldPool.NeverStuck` | src-tools/netmodel/netmodel.cpp:1572-1597 | unless every weld is lost to a read that threw, some step changes the pool |
| `WeldPool.StoreIsSafe` | src-tools/netmodel/netmodel.cpp:984-994 | the two assertions of storing a fragment never fail |
| `WeldPool.BufferSuffices` | src-tools/netmodel/netmodel.cpp:1489-1494 | the data and the 16 octets of the authenticator fit the buffer, and every fragment end fits 16 bits |
| `WeldPool.LeakedIsLost` | src-tools/netmodel/netmodel.cpp:1576-1605 | no step touches a weld whose read threw; it is reserved |
| `WeldPool.LeakedForever` | src-tools/netmodel/netmodel.cpp:1576-1605 | in every run, from the moment a read throws its weld stays reserved and unchanged |
| `WeldPool.QuietPoolIsFree` | src-tools/netmodel/netmodel.cpp:1007-1026 | when nobody is at work a weld is free, with room, if and only if no read into it has thrown, and what was read is sent or held |
| `WeldPool.FragmentsAreTheData` | src-tools/netmodel/netmodel.cpp:957-961 | the fragments are all of the data, in order |
| `WeldPool.OneMoreFragment` | src-tools/netmodel/netmodel.cpp:984-994 | storing a chunk adds exactly that fragment |
| `WeldPool.FirstFree` | src-tools/netmodel/netmodel.cpp:1530-1537 | the lowest weld that is free and has room, or none is |
| `WeldBuffers.WeldBuffer.constructor` | src-tools/netmodel/netmodel.cpp:966-971 | a new weld is empty and free |
| `WeldBuffers.WeldBuffer.Clear` | src-tools/netmodel/netmodel.cpp:977-982 | empties and frees the weld |
| `WeldBuffers.WeldBuffer.AddFragment` | src-tools/netmodel/netmodel.cpp:984-994 | takes the bytes behind the position as a fragment, or fails an assertion and changes nothing |
| `WeldBuffers.WeldBuffer.GetSpaceLeft` | src-tools/netmodel/netmodel.cpp:996-1000 | the free bytes, or zero when no fragment end can be stored |
| `WeldBuffers.GetTunInputBuffer` | src-tools/netmodel/netmodel.cpp:1520-1563 | reserves the lowest free weld with room and offers at least 9000 bytes, and touches no other |
| `WeldBuffers.SendToGlobalWeld` | src-tools/netmodel/netmodel.cpp:1007-1026 | stores what was read; the weld is posted, still reserved, exactly when less than 9000 bytes are left, and freed otherwise |
| `StartBarrier.NobodyStartsEarly` | src-tools/netmodel/netmodel.cpp:596-605 | no worker works before all have announced themselves, and the countdown is the number that have not |
| `StartBarrier.NoDeadlock` | src-tools/netmodel/netmodel.cpp:630-646 | no wakeup is lost: unless all is done, some thread can go on without a spurious wakeup, and when all is done none can |
| `StartBarrier.AllHaveWorked` | src-tools/netmodel/netmodel.cpp:602-621 | when the main thread returns every worker has worked, and each at a time when all had announced themselves |
| `StartBarrier.FinishedHasWorked` | src-tools/netmodel/netmodel.cpp:602-621 | a worker that has finished has worked |
| `StartBarrier.RunsEnd` | src-tools/netmodel/netmodel.cpp:555-646 | with n workers a run has at most 10 n + 7 steps, and two more for each spurious wakeup |
| `StartBarrier.InvAlways` | src-tools/netmodel/netmodel.cpp:555-646 | the barrier's invariant holds in every interleaving |
| `StartBarrier.WorkerStepDecreases` | src-tools/netmodel/netmodel.cpp:596-620 | a step of a worker brings the end nearer, a spurious wakeup puts it off by one |
| `StartBarrier.MainStepDecreases` | src-tools/netmodel/netmodel.cpp:630-646 | the same for the main thread, although waking all may undo a step of every worker |
| `DataEater.EatenIsKept` | src-gui/dataeater.hpp:36-44 | the bytes eaten are the completed commands as framed, then the header, the command so far and the buffer; each call completes at most one |
| `DataEater.CommandsAreFrames` | src-gui/dataeater.cpp:19-47 | the commands are the first frames of the stream, and the missing ones are in the pending bytes |
| `DataEater.AllFramesIffKeepsUp` | src-gui/dataeater.cpp:19-47 | for every stream and every cut, the commands are exactly its complete frames if and only if no stretch of chunks at the end completes more frames than it has chunks |
| `DataEater.Lag` | src-gui/dataeater.cpp:34-46 | the number of commands is the least sum of the frames complete at some time and the chunks after it |
| `DataEater.SmallChunksGiveAllFrames` | src-gui/dataeater.cpp:19-47 | chunks of at most 66 octets keep up, however the stream is cut, so the commands are exactly its complete frames |
| `DataEater.LargerChunksCanLag` | src-gui/dataeater.cpp:35-39 | 66 is the best bound: with a chunk of 67 octets a complete frame can stay behind |
| `DataEater.TakeFramed` | src-gui/dataeater.cpp:21-46 | a framed command is the first frame of any stream that begins with it |
| `DataEater.FramesOfFramed` | src-gui/dataeater.cpp:19-47 | decoding framed commands gives them back, and then the frames of what follows |
| `DataEater.DataEater.PopMsgSize` | src-gui/dataeater.cpp:10-17 | takes two octets, high one first |
| `DataEater.DataEater.ContinueProcessing` | src-gui/dataeater.cpp:19-47 | completes the first pending frame if it is complete, and changes nothing else of what is pending |
| `DataEater.DataEater.Eat` | src-gui/dataeater.hpp:36-44 | appends the data to what is pending and completes at most one frame, the first |
| `DataEater.DataEater.GetLastCommand` | src-gui/dataeater.cpp:49-54 | the newest command, which stays in the list |
| `DataEater.SerializeMsg` | src-gui/netclient.cpp:84-97 | two octets of size and then the message; a message over 65535 octets is refused |
| `DataEater.OnTcpReceive` | src-gui/netclient.cpp:65-82 | feeds the data and executes the newest command, or drops the connection |
| `DataEater.AuthDecides` | src-gui/netclient.cpp:99-108 | a command is executed as a message if and only if it is that message, not empty, and then its authenticator; any other drops the connection |
| `DataEater.ExecutedIsAuthentic` | src-gui/netclient.cpp:65-108 | however the stream is cut, whatever is executed stands in the stream as a framed message followed by its own authenticator |
| `DataEater.SentIsReceived` | src-gui/netclient.cpp:44-63 | a sent message is one frame and is executed as it was sent, unless it is empty: then the receiver drops |
| `DataEater.CommandsAreRepeated` | src-gui/netclient.cpp:65-82 | a receive leaves the commands as they were, and so executes the newest one again, exactly when every complete frame is a command already |
| `DataEater.HandledOnceIffKeepsPace` | src-gui/netclient.cpp:65-82 | for every stream and every cut, each command is executed exactly once, in order, if and only if from the first complete frame on every chunk finds another one complete; otherwise there are more executions than commands, never fewer |
| `DataEater.PaceOfFrames` | src-gui/dataeater.cpp:34-46 | that every receive after the first command completes one is the same as a property of the frames and the cut alone |
| `DataEater.OneMessageAtATime` | src-gui/netclient.cpp:44-82 | when every receive brings one message, each is executed once, in order |
| `PeerReference.PrintThenParse` | src/galaxysrv_peers.cpp:60-134 | printing and then parsing is the identity on every well-formed reference, with any number of cables and `anyone` for no identity |
| `PeerReference.AcceptedExactly` | src/galaxysrv_peers.cpp:60-134 | a string is accepted if and only if it is an identity alone, or a printed reference, or one followed by a dangling `@(` with at most one character, exactly one when there is no cable |
| `PeerReference.ShapeParses` | src/galaxysrv_peers.cpp:80-132 | every string of that shape parses into its identity and cables |
| `PeerReference.ParsedHasShape` | src/galaxysrv_peers.cpp:80-132 | every accepted string with an `@` has that shape |
| `PeerReference.ParseThenPrint` | src/galaxysrv_peers.cpp:80-132 | without a dangling group, printing what was parsed gives the string back |
| `PeerReference.GroupsParse` | src/galaxysrv_peers.cpp:106-131 | printed groups are parsed into their cables, with a dangling group behind them or not |
| `PeerReference.AcceptedGroups` | src/galaxysrv_peers.cpp:106-131 | whatever is accepted behind an opened group is printed cables and possibly a dangling group |
| `PeerReference.ParseGroup` | src/galaxysrv_peers.cpp:107-130 | one turn of the loop takes one cable and finds where the next starts |
| `PeerReference.ParsePeerReference` | src/galaxysrv_peers.cpp:60-134 | the loop ends and computes the parse |

## Left out

- Sockets, TUN devices, `select`, threads of the event loop, clocks and the removal of inactive peers by time.
- Cryptography itself: libsodium, NTRU, SIDH, key files, HMAC and the tunnel's key exchange are functions of which only
  what a theorem requires is known; loading a malformed key, which throws, is not part of the model.
- Discovery beyond one hop: `RouteIsFound` needs a peer that can answer at once. Replies are not relayed to earlier askers
  and a search is sent only when it is created, so further destinations need not be found.
- Timestamps of requests and routes, `m_ever`, statistics and the peers' limit points (never below zero in the code).
- Forgery of datagrams: honest nodes send only what the code sends. The facts about one node (`NodeFacts`, `RelayBound`,
  `SearchBookkeeping`) hold for any datagram.
- The order in which the program goes through its peers: a broadcast is a multiset, and any peer with the sender's
  physical address may be found first.
- Concurrent RPC calls: a ban is two critical sections, here one operation.
- TunServer.Server.AddPeerSimplestring: takes the parsed reference; splitting the string, and the newer format's search
  for the port, are not part of this model.
- TunServer.Server.DeletePeerSimplestring: takes the parsed address; parsing it is not part of this model.
- SearchBookkeeping.DetailIsGreatest: is about a map keyed by equality, which the program's map is only for requesters that
  do not disagree (`OrdersIffAgreeing`); what the library does with an inconsistent comparison is not part of this model.
- TunServer.RouteSearch.AddRequest: the same; the TTL to use does not depend on the map.
- WireFormat.WhatIsSentIsReceived: the 65535-octet limit of UDP is not modelled.
- The log output of the handlers, which in the program can throw for a banned sender of `public_hi` when shown.
- The codec of locked strings: its reader copies an inclusive range into a raw buffer, and memory outside the buffer is
  not part of this model.
- Big-endian hosts.
- The asynchronous TUN path of the netmodel, whose handler captures an old buffer index; errors of a send, which clear
  the weld like a success; the choice of socket; and the encryption in place, of which only the size is kept.
- WeldPool.PoolAlways: a step is one critical section; the reads of `m_reserved` and `m_pos` outside locks are taken
  as atomic.
- StartBarrier.RunsEnd: workers that throw before announcing themselves, which would block the main thread, are left
  out, and one sample is modelled.
- The `#if 0` new loop, the circular buffer that is only a comment, the Qt GUI, RPC texts, options, hex conversion and
  the netbuf wrappers: they hold no property beyond what one body shows.
