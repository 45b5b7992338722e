/** The node itself: the objects of the old loop, updated in place, each method tied to its function in `NodeModel`. */
module TunServer {
  import opened Basics
  import opened NodeModel
  import opened NodeFacts

  /** `c_peering`: one known peer. */
  class Peering {
    const hip: Addr
    var pip: Pip
    var pubkey: Option<Pubkey>

    ghost function View(): Peer
      reads this
    {
      Peer(pip, hip, pubkey)
    }

    constructor (ref: PeerRef)
      ensures View() == Peer(ref.pip, ref.hip, None)
    {
      hip := ref.hip;
      pip := ref.pip;
      pubkey := None;
    }

    method SetPip(addr: Pip)
      modifies this`pip
      ensures View() == old(View()).(pip := addr)
    {
      pip := addr;
    }

    method SetPubkey(pk: Pubkey)
      modifies this`pubkey
      ensures View() == old(View()).(pubkey := Some(pk))
    {
      pubkey := Some(pk);
    }
  }

  /** `c_route_search`: who asks for one destination, and with which TTL to search. */
  class RouteSearch {
    var request: map<Reason, int>
    var ttlShouldUse: int
    var ttlUsed: int

    ghost function View(): Search
      reads this
    {
      Search(request, ttlShouldUse, ttlUsed)
    }

    constructor ()
      ensures View() == NewSearch()
    {
      request := map[];
      ttlShouldUse := 5;
      ttlUsed := 0;
    }

    method AddRequest(reason: Reason, ttl: int)
      modifies this
      ensures View() == NodeModel.AddRequest(old(View()), reason, ttl)
    {
      if reason !in request {
        request := request[reason := ttl];
      } else {
        request := request[reason := Max(request[reason], ttl)];
      }
      ttlShouldUse := Max(ttlShouldUse, ttl);
    }

    method Execute(goal: Addr, node: Server)
      requires node.Valid()
      modifies this`ttlUsed, node`wire
      ensures View() == old(View()).(ttlUsed := old(ttlShouldUse) % 256)
      ensures node.wire == old(node.wire) + Broadcast(old(node.View()), Query(goal, old(ttlShouldUse) % 256))
    {
      var ttlByte := ttlShouldUse % 256;
      node.ForeachPeerSend(Query(goal, ttlByte));
      ttlUsed := ttlByte;
    }
  }

  /** `c_routing_manager`: the searches under way and the routes known. */
  class RoutingManager {
    var search: map<Addr, RouteSearch>
    var routes: map<Addr, Route>

    constructor ()
      ensures search == map[] && routes == map[]
    {
      search := map[];
      routes := map[];
    }

    method AddRouteInfoAndReturn(target: Addr, route: Route) returns (r: Route)
      modifies this`routes
      ensures routes == if target in old(routes) then old(routes) else old(routes)[target := route]
      ensures r == routes[target]
    {
      if target !in routes {
        routes := routes[target := route];
      }
      r := routes[target];
    }

    /** The direct route to a peer, stored so that this object owns it; a peer without a key has none. */
    method DirectRoute(node: Server, dst: Addr) returns (r: Option<Route>)
      requires node.Valid() && node.routing == this && dst in node.peers
      modifies this`routes
      ensures search == old(search)
      ensures var n := old(node.View());
              match n.peers[dst].pubkey
              case None => routes == old(routes) && r == None
              case Some(pk) =>
                routes == AddRoute(n, dst, Route(dst, 1, pk)).routes && r == Some(routes[dst])
    {
      var peer := node.peers[dst];
      assert old(node.View()).peers[dst] == peer.View();
      if peer.pubkey.None? {
        return None;
      }
      var route := AddRouteInfoAndReturn(dst, Route(peer.hip, 1, peer.pubkey.value));
      return Some(route);
    }

    /** Starts a search, and asks all peers at once. */
    method StartSearch(node: Server, dst: Addr, reason: Reason, ttl: int)
      requires node.Valid() && node.routing == this && dst !in search
      modifies this`search, node`wire
      ensures node.Valid() && fresh(search.Values - old(search.Values)) && node.peers == old(node.peers)
      ensures routes == old(routes) && node.Peers() == old(node.Peers())
      ensures var s := NodeModel.AddRequest(NewSearch(), reason, ttl);
              && node.Searches() == old(node.Searches())[dst := s.(ttlUsed := s.ttlShouldUse % 256)]
              && node.wire == old(node.wire) + Broadcast(old(node.View()), Query(dst, s.ttlShouldUse % 256))
    {
      hide Broadcast, NodeModel.AddRequest;
      var begun := Begin(reason, ttl);
      assert node.View() == old(node.View());
      begun.Execute(dst, node);
      assert node.Searches() == old(node.Searches()) && node.Peers() == old(node.Peers()) && begun !in search.Values;
      Enter(node, dst, begun);
    }

    method Begin(reason: Reason, ttl: int) returns (begun: RouteSearch)
      ensures fresh(begun) && begun.View() == NodeModel.AddRequest(NewSearch(), reason, ttl)
    {
      begun := new RouteSearch();
      begun.AddRequest(reason, ttl);
    }

    /** Files a search object that nobody else has. */
    method Enter(node: Server, dst: Addr, begun: RouteSearch)
      requires node.Valid() && node.routing == this && dst !in search && begun !in search.Values
      modifies this`search
      ensures node.Valid() && search.Values <= old(search.Values) + {begun}
      ensures node.Peers() == old(node.Peers()) && node.Searches() == old(node.Searches())[dst := begun.View()]
    {
      search := search[dst := begun];
    }

    method UpdateSearch(node: Server, dst: Addr, reason: Reason, ttl: int)
      requires node.Valid() && node.routing == this && dst in search
      modifies search[dst]
      ensures node.Searches() == old(node.Searches())[dst := NodeModel.AddRequest(old(node.Searches())[dst], reason, ttl)]
    {
      search[dst].AddRequest(reason, ttl);
    }

    /** Looks in the peers, then in the known routes, then starts or updates a search. */
    method GetRouteOrMaybeSearch(node: Server, dst: Addr, reason: Reason, start: bool, ttl: int) returns (r: Option<Route>)
      requires node.Valid() && node.routing == this
      modifies this, search.Values, node`wire
      ensures node.Valid() && fresh(search.Values - old(search.Values)) && node.peers == old(node.peers)
      ensures var a := NodeModel.GetRouteOrMaybeSearch(old(node.View()), dst, reason, start, ttl);
              node.View() == a.node && node.wire == old(node.wire) + a.sent && r == a.route
    {
      ghost var n := node.View();
      if dst in node.peers {
        r := DirectRoute(node, dst);
        assert node.Searches() == n.search && node.Peers() == n.peers;
        assert n.peers[dst].hip == dst;
      } else if dst in routes {
        r := Some(routes[dst]);
      } else {
        r := None;
        if start {
          StartOrUpdateSearch(node, dst, reason, ttl);
        }
      }
    }

    method StartOrUpdateSearch(node: Server, dst: Addr, reason: Reason, ttl: int)
      requires node.Valid() && node.routing == this && dst !in node.peers && dst !in routes
      modifies this`search, search.Values, node`wire
      ensures node.Valid() && fresh(search.Values - old(search.Values)) && node.peers == old(node.peers)
      ensures var a := NodeModel.GetRouteOrMaybeSearch(old(node.View()), dst, reason, true, ttl);
              node.View() == a.node && node.wire == old(node.wire) + a.sent && a.route == None
    {
      if dst in search {
        UpdateSearch(node, dst, reason, ttl);
        assert node.Peers() == old(node.Peers());
      } else {
        StartSearch(node, dst, reason, ttl);
      }
    }
  }

  /** One copy of the message to each of these peers. */
  ghost function SentTo(n: Node, to: set<Addr>, msg: Msg): multiset<Packet>
    requires to <= n.peers.Keys
  {
    multiset(set h | h in to :: Packet(n.pip, h, n.peers[h].pip, msg))
  }

  lemma OneMoreSent(n: Node, done: set<Addr>, h: Addr, msg: Msg)
    requires done <= n.peers.Keys && h in n.peers && h !in done
    ensures SentTo(n, done + {h}, msg) == SentTo(n, done, msg) + multiset{Packet(n.pip, h, n.peers[h].pip, msg)}
  {
    var sent := set g | g in done :: Packet(n.pip, g, n.peers[g].pip, msg);
    var one := Packet(n.pip, h, n.peers[h].pip, msg);
    assert (set g | g in done + {h} :: Packet(n.pip, g, n.peers[g].pip, msg)) == sent + {one};
    assert one !in sent;
    assert multiset(sent + {one}) == multiset(sent) + multiset{one};
  }

  lemma SentToAll(n: Node, msg: Msg)
    ensures SentTo(n, n.peers.Keys, msg) == Broadcast(n, msg)
    ensures SentTo(n, {}, msg) == multiset{}
  {
    assert (set h | h in n.peers.Keys :: Packet(n.pip, h, n.peers[h].pip, msg))
           == (set h | h in n.peers :: Packet(n.pip, h, n.peers[h].pip, msg));
  }

  /** `c_tunserver`: the state of one node. `wire` and `tun` are what it has handed to the sockets. */
  class Server {
    const k: Crypto
    const me: Addr
    const pip: Pip
    const cred: Credentials
    const routing: RoutingManager
    var peers: map<Addr, Peering>
    var black: set<Addr>
    var tunnels: map<Addr, Pubkey>
    var wire: multiset<Packet>
    var tun: seq<Bytes>

    /** Each entry owns its object, and a peer is filed under its own address. */
    ghost predicate Valid()
      reads this, routing
    {
      && (forall a <- peers, b <- peers :: peers[a] == peers[b] ==> a == b)
      && (forall a <- routing.search, b <- routing.search :: routing.search[a] == routing.search[b] ==> a == b)
      && (forall h <- peers :: peers[h].hip == h)
    }

    ghost function Searches(): map<Addr, Search>
      reads routing, routing.search.Values
    {
      map d | d in routing.search :: routing.search[d].View()
    }

    ghost function Peers(): map<Addr, Peer>
      reads this, peers.Values
    {
      map h | h in peers :: peers[h].View()
    }

    ghost function View(): Node
      reads this, routing, peers.Values, routing.search.Values
    {
      Node(me, pip, cred, Peers(), black, Searches(), routing.routes, tunnels)
    }

    constructor (k: Crypto, me: Addr, pip: Pip, cred: Credentials)
      ensures Valid() && fresh(routing)
      ensures this.k == k && View() == Node(me, pip, cred, map[], {}, map[], map[], map[])
      ensures wire == multiset{} && tun == []
    {
      this.k := k;
      this.me := me;
      this.pip := pip;
      this.cred := cred;
      routing := new RoutingManager();
      peers := map[];
      black := {};
      tunnels := map[];
      wire := multiset{};
      tun := [];
    }

    // -------------------------------------------------------------- peer operations

    method AddPeer(ref: PeerRef) returns (added: bool)
      requires Valid()
      modifies this`peers
      ensures Valid() && fresh(peers.Values - old(peers.Values))
      ensures added == (ref.hip !in old(peers))
      ensures View() == old(View()).(peers := if added then old(Peers())[ref.hip := Peer(ref.pip, ref.hip, None)] else old(Peers()))
    {
      added := ref.hip !in peers;
      if added {
        var peering := new Peering(ref);
        peers := peers[ref.hip := peering];
      }
      assert Searches() == old(Searches());
      assert Peers() == if added then old(Peers())[ref.hip := Peer(ref.pip, ref.hip, None)] else old(Peers());
    }

    method AddPeerToBlackList(hip: Addr)
      modifies this`black
      ensures black == old(black) + {hip}
    {
      black := black + {hip};
    }

    method DeletePeerFromBlackList(hip: Addr)
      modifies this`black
      ensures black == old(black) - {hip}
    {
      if hip in black {
        black := black - {hip};
      }
    }

    method DeletePeer(hip: Addr) returns (deleted: bool)
      requires Valid()
      modifies this`peers
      ensures Valid() && peers.Values <= old(peers.Values)
      ensures deleted == (hip in old(peers))
      ensures View() == old(View()).(peers := old(Peers()) - {hip})
    {
      deleted := hip in peers;
      if deleted {
        peers := peers - {hip};
      }
      assert Searches() == old(Searches());
      assert Peers() == old(Peers()) - {hip};
    }

    /** Both text formats of a peer end here, once the reference is parsed. */
    method AddPeerSimplestring(ref: PeerRef)
      requires Valid()
      modifies this`peers, this`black
      ensures Valid() && fresh(peers.Values - old(peers.Values))
      ensures View() == AddPeerSimple(old(View()), ref)
    {
      var added := AddPeer(ref);
      DeletePeerFromBlackList(ref.hip);
      assert View().peers == AddPeerSimple(old(View()), ref).peers;
    }

    method DeletePeerSimplestring(hip: Addr, ban: bool) returns (deleted: bool)
      requires Valid()
      modifies this`peers, this`black
      ensures Valid() && peers.Values <= old(peers.Values)
      ensures deleted == (hip in old(peers))
      ensures View() == DeletePeerSimple(old(View()), hip, ban)
    {
      deleted := DeletePeer(hip);
      if ban {
        AddPeerToBlackList(hip);
      }
    }

    method DeleteAllPeers(ban: bool)
      requires Valid()
      modifies this`peers, this`black
      ensures Valid() && peers.Values <= old(peers.Values)
      ensures View() == NodeModel.DeleteAllPeers(old(View()), ban)
    {
      if ban {
        var left := peers.Keys;
        while left != {}
          modifies this`black
          invariant left <= peers.Keys
          invariant black == old(black) + (peers.Keys - left)
          decreases left
        {
          var h :| h in left;
          black := black + {h};
          left := left - {h};
        }
      }
      peers := map[];
      assert Searches() == old(Searches());
      assert Peers() == map[] && old(Peers()).Keys == old(peers).Keys;
      assert black == if ban then old(black) + old(Peers()).Keys else old(black);
    }

    method UpdatePeer(ref: PeerRef, pk: Pubkey)
      requires Valid() && ref.hip in peers
      modifies peers[ref.hip]
      ensures View() == old(View()).(peers := old(Peers())[ref.hip := Peer(ref.pip, ref.hip, Some(pk))])
    {
      var peering := peers[ref.hip];
      peering.SetPubkey(pk);
      if peering.pip != ref.pip {
        peering.SetPip(ref.pip);
      }
      assert Peers() == old(Peers())[ref.hip := Peer(ref.pip, ref.hip, Some(pk))];
      assert Searches() == old(Searches());
    }

    method AddNewPeer(ref: PeerRef, pk: Pubkey)
      requires Valid() && ref.hip !in peers
      modifies this`peers
      ensures Valid() && fresh(peers.Values - old(peers.Values))
      ensures View() == old(View()).(peers := old(Peers())[ref.hip := Peer(ref.pip, ref.hip, Some(pk))])
    {
      var peering := new Peering(ref);
      peering.SetPubkey(pk);
      peers := peers[ref.hip := peering];
      assert Peers() == old(Peers())[ref.hip := Peer(ref.pip, ref.hip, Some(pk))];
      assert Searches() == old(Searches());
    }

    /** Refuses a key that does not hash to the address of the reference. */
    method AddPeerAppendPubkey(ref: PeerRef, pk: Pubkey) returns (ok: bool)
      requires Valid()
      modifies this`peers, peers.Values
      ensures Valid() && fresh(peers.Values - old(peers.Values))
      ensures ok == (k.hipOf(pk) == ref.hip)
      ensures View() == if ok then NodeModel.AddPeerAppendPubkey(old(View()), ref, pk) else old(View())
    {
      ok := k.hipOf(pk) == ref.hip;
      if ok {
        if ref.hip in peers {
          UpdatePeer(ref, pk);
        } else if ref.hip !in black {
          AddNewPeer(ref, pk);
        }
      }
    }

    method AddTunnelToPubkey(pk: Pubkey)
      modifies this`tunnels
      ensures View() == AddTunnel(k, old(View()), pk)
    {
      var hip := k.hipOf(pk);
      if hip !in tunnels {
        tunnels := tunnels[hip := pk];
      }
      assert Peers() == old(Peers()) && Searches() == old(Searches());
    }

    // -------------------------------------------------------------- sending

    method ForeachPeerSend(msg: Msg)
      requires Valid()
      modifies this`wire
      ensures wire == old(wire) + Broadcast(old(View()), msg)
    {
      hide SentTo, Broadcast;
      ghost var n := View();
      var left := peers.Keys;
      ghost var done: set<Addr> := {};
      SentToAll(n, msg);
      while left != {}
        invariant left !! done && left + done == peers.Keys == n.peers.Keys
        invariant wire == old(wire) + SentTo(n, done, msg)
        decreases left
      {
        var h :| h in left;
        OneMoreSent(n, done, h, msg);
        wire := wire + multiset{Packet(pip, h, peers[h].pip, msg)};
        left, done := left - {h}, done + {h};
      }
      assert done == n.peers.Keys;
    }

    /** Finds the peer that has the sender's physical address. */
    method FindPeerBySenderPeeringAddr(from: Pip) returns (sender: Option<Addr>)
      requires Valid()
      ensures Recognised(View(), from, sender)
    {
      var left := peers.Keys;
      while left != {}
        invariant left <= peers.Keys
        invariant forall h <- peers | h !in left :: peers[h].pip != from
        decreases left
      {
        var h :| h in left;
        if peers[h].pip == from {
          return Some(peers[h].hip);
        }
        left := left - {h};
      }
      return None;
    }

    // -------------------------------------------------------------- forwarding

    method SendToPeer(h: Addr, msg: Msg)
      requires Valid() && h in peers
      modifies this`wire
      ensures View() == old(View())
      ensures wire == old(wire) + multiset{Packet(pip, h, View().peers[h].pip, msg)}
    {
      wire := wire + multiset{Packet(pip, h, peers[h].pip, msg)};
      assert View() == old(View());
    }

    /** Chooses the next hop; for a next hop that is no peer it looks for a route and tries again, at most twice. */
    method RouteDetail(src: Addr, dst: Addr, next: Addr, reason: Reason, level: nat, ttl: int, nonce: Octets24, blob: Bytes)
      returns (ok: bool)
      requires Valid() && level <= 2 && ttl < 256
      modifies this`wire, routing, routing.search.Values
      ensures Valid() && fresh(routing.search.Values - old(routing.search.Values))
      ensures var f := NodeModel.RouteDetail(old(View()), src, dst, next, reason, level, ttl, nonce, blob);
              View() == f.node && wire == old(wire) + f.sent && ok == f.chosen.Some?
      decreases 2 - level, 1
    {
      DetailCases(View(), src, dst, next, reason, level, ttl, nonce, blob);
      hide NodeModel.GetRouteOrMaybeSearch, NodeModel.RouteDetail;
      assert View().peers.Keys == peers.Keys && (peers == map[] <==> View().peers == map[]);
      ok := false;
      if 0 < ttl && peers != map[] {
        if next in peers {
          SendToPeer(next, Data(src, dst, ttl, nonce, blob));
          ok := true;
        } else if level <= 1 {
          ok := RouteVia(src, dst, next, reason, level, ttl, nonce, blob);
        }
      }
    }

    /** The part of `RouteDetail` for a next hop that is no peer. */
    method RouteVia(src: Addr, dst: Addr, next: Addr, reason: Reason, level: nat, ttl: int, nonce: Octets24, blob: Bytes)
      returns (ok: bool)
      requires Valid() && level <= 1 && 0 < ttl < 256 && View().peers != map[] && next !in View().peers
      modifies this`wire, routing, routing.search.Values
      ensures Valid() && fresh(routing.search.Values - old(routing.search.Values))
      ensures var f := NodeModel.RouteDetail(old(View()), src, dst, next, reason, level, ttl, nonce, blob);
              View() == f.node && wire == old(wire) + f.sent && ok == f.chosen.Some?
      decreases 2 - level, 0
    {
      ghost var n := View();
      ghost var found := NodeModel.GetRouteOrMaybeSearch(n, next, reason, true, TTL_MAX_ACCEPTED);
      DetailVia(n, src, dst, next, reason, level, ttl, nonce, blob);
      hide NodeModel.GetRouteOrMaybeSearch, NodeModel.RouteDetail;
      var route := routing.GetRouteOrMaybeSearch(this, next, reason, true, TTL_MAX_ACCEPTED);
      assert View() == found.node && wire == old(wire) + found.sent;
      ok := false;
      if route.Some? {
        ghost var rest := NodeModel.RouteDetail(found.node, src, dst, route.value.nexthop, reason, level + 1, ttl, nonce, blob);
        ok := RouteDetail(src, dst, route.value.nexthop, reason, level + 1, ttl, nonce, blob);
        assert old(wire) + found.sent + rest.sent == old(wire) + (found.sent + rest.sent);
      }
    }

    method RouteTop(src: Addr, dst: Addr, reason: Reason, ttl: int, nonce: Octets24, blob: Bytes) returns (ok: bool)
      requires Valid() && ttl < 256
      modifies this`wire, routing, routing.search.Values
      ensures Valid() && fresh(routing.search.Values - old(routing.search.Values))
      ensures var f := NodeModel.RouteTop(old(View()), src, dst, reason, ttl, nonce, blob);
              View() == f.node && wire == old(wire) + f.sent && ok == f.chosen.Some?
    {
      ok := RouteDetail(src, dst, dst, reason, 0, ttl, nonce, blob);
    }

    // -------------------------------------------------------------- the command handlers

    method HandleTunneledData(src: Addr, dst: Addr, ttl: Byte, nonce: Octets24, blob: Bytes)
      requires Valid()
      modifies this`wire, this`tun, routing, routing.search.Values
      ensures Valid() && fresh(routing.search.Values - old(routing.search.Values))
      ensures var st := HandleData(k, old(View()), src, dst, ttl, nonce, blob);
              View() == st.node && wire == old(wire) + st.sent && tun == old(tun) + st.tun
    {
      hide NodeModel.RouteTop;
      if dst == me {
        if src !in tunnels {
          var _ := RouteTop(dst, src, Reason(ZERO_ADDR, RouteOwnPacket), ttl, k.dummyNonce, []);
        } else {
          var clear := k.unbox(tunnels[src], nonce, blob);
          if clear.Some? {
            WriteToTun(src, dst, clear.value);
            assert View() == old(View());
          }
        }
      } else {
        var _ := RouteTop(src, dst, Reason(src, RouteOtherPacket), ClampTtl(ttl), nonce, blob);
      }
    }

    /** Puts the destination back, checks the source, and writes the frame; refuses unsupported or short packets. */
    method WriteToTun(src: Addr, dst: Addr, clear: Bytes)
      modifies this`tun
      ensures tun == old(tun) + TunFrame(src, dst, clear)
    {
      if |clear| <= 6 || clear[6] !in {6, 17, 58} || |clear| < 24 {
        return;
      }
      var packet := clear[..24] + dst.octets + clear[24..];
      if packet[8..24] != src.octets {
        return;
      }
      tun := tun + [TUN_HEADER + packet];
    }

    method HandlePublicHi(from: Pip, his: Credentials)
      requires Valid()
      modifies this`peers, this`tunnels, peers.Values
      ensures Valid() && fresh(peers.Values - old(peers.Values))
      ensures View() == HandleHi(k, old(View()), from, his).node
    {
      hide NodeModel.AddPeerAppendPubkey, AddTunnel;
      if k.verifies(his) {
        var _ := AddPeerAppendPubkey(PeerRef(from, k.hipOf(his.idi)), his.idi);
        AddTunnelToPubkey(his.idi);
      }
    }

    method HandleFindhipQuery(sender: Addr, goal: Addr, ttlByte: Byte)
      requires Valid() && sender in peers
      modifies this`wire, routing, routing.search.Values
      ensures Valid() && fresh(routing.search.Values - old(routing.search.Values))
      ensures var st := HandleQuery(old(View()), sender, goal, ttlByte);
              View() == st.node && wire == old(wire) + st.sent
    {
      hide NodeModel.GetRouteOrMaybeSearch;
      var requested := SignedByte(ttlByte);
      if requested >= 1 {
        var route := routing.GetRouteOrMaybeSearch(this, goal, Reason(sender, HelpFind), true, requested - 1);
        if route.Some? {
          LookupKeepsPeers(old(View()), goal, Reason(sender, HelpFind), true, requested - 1);
          SendToPeer(sender, Reply(requested, route.value.cost, goal, route.value.pubkey));
        }
      }
    }

    method HandleFindhipReply(sender: Addr, ttl: Byte, cost: Byte, goal: Addr, pk: Pubkey)
      requires Valid()
      modifies this`tunnels, routing`routes
      ensures Valid()
      ensures View() == HandleReply(k, old(View()), sender, ttl, cost, goal, pk).node
    {
      if ttl >= 1 {
        AddTunnelToPubkey(pk);
        var _ := routing.AddRouteInfoAndReturn(goal, Route(sender, cost, pk));
      }
      assert Peers() == old(Peers()) && Searches() == old(Searches());
    }

    /** A query, a reply or data from a recognised peer. */
    method HandleFromPeer(from: Pip, h: Addr, msg: Msg)
      requires Valid() && h in peers && !msg.Hi?
      modifies this`wire, this`tun, this`tunnels, routing, routing.search.Values
      ensures Valid() && fresh(routing.search.Values - old(routing.search.Values)) && peers == old(peers)
      ensures var st := HandleUdp(k, old(View()), from, Some(h), msg);
              View() == st.node && wire == old(wire) + st.sent && tun == old(tun) + st.tun
    {
      hide HandleQuery, HandleReply, HandleData;
      match msg
      case Query(goal, ttl) =>
        HandleFindhipQuery(h, goal, ttl);
        QueryWritesNothing(old(View()), h, goal, ttl);
      case Reply(ttl, cost, goal, pk) =>
        HandleFindhipReply(h, ttl, cost, goal, pk);
        ReplySendsNothing(k, old(View()), h, ttl, cost, goal, pk);
      case Data(src, dst, ttl, nonce, blob) =>
        HandleTunneledData(src, dst, ttl, nonce, blob);
    }

    /** One datagram from the socket. Commands other than `public_hi` are refused from an unknown sender. */
    method ReceiveUdp(from: Pip, msg: Msg) returns (sender: Option<Addr>)
      requires Valid()
      modifies this, routing, routing.search.Values, peers.Values
      ensures Valid() && fresh(peers.Values - old(peers.Values)) && fresh(routing.search.Values - old(routing.search.Values))
      ensures Recognised(old(View()), from, sender)
      ensures var st := HandleUdp(k, old(View()), from, sender, msg);
              View() == st.node && wire == old(wire) + st.sent && tun == old(tun) + st.tun
    {
      hide HandleQuery, HandleReply, HandleHi, HandleData, Recognised;
      sender := FindPeerBySenderPeeringAddr(from);
      if msg.Hi? {
        HandlePublicHi(from, msg.cred);
        HiSendsNothing(k, old(View()), from, msg.cred);
      } else if sender.Some? {
        HandleFromPeer(from, sender.value, msg);
      }
    }

    /** One frame from the TUN device; `nonce` is the one the tunnel would use for it. */
    method ReadTun(frame: Bytes, nonce: Octets24)
      requires Valid()
      modifies this`wire, routing, routing.search.Values
      ensures Valid() && fresh(routing.search.Values - old(routing.search.Values))
      ensures var st := HandleTun(k, old(View()), frame, nonce);
              View() == st.node && wire == old(wire) + st.sent && tun == old(tun) + st.tun
    {
      hide NodeModel.RouteTop;
      if |frame| < 44 {
        return;
      }
      var src, dst := FrameSource(frame), FrameDestination(frame);
      if dst.octets[0] != 0xFD {
        return;
      }
      var reason := Reason(ZERO_ADDR, RouteOwnPacket);
      if dst !in tunnels {
        var _ := RouteTop(src, dst, reason, DATA_ROUTE_TTL, k.dummyNonce, []);
      } else {
        var blob := k.box(tunnels[dst], nonce, Cleartext(frame));
        var _ := RouteTop(src, dst, reason, DATA_ROUTE_TTL, nonce, blob);
      }
    }

    method PeeringPingAllPeers()
      requires Valid()
      modifies this`wire
      ensures Valid()
      ensures View() == old(View()) && wire == old(wire) + Broadcast(old(View()), Hi(cred))
    {
      ForeachPeerSend(Hi(cred));
    }
  }

  lemma HiSendsNothing(k: Crypto, n: Node, from: Pip, cred: Credentials)
    ensures HandleHi(k, n, from, cred).sent == multiset{} && HandleHi(k, n, from, cred).tun == []
  {}

  lemma QueryWritesNothing(n: Node, sender: Addr, goal: Addr, ttl: Byte)
    ensures HandleQuery(n, sender, goal, ttl).tun == []
  {}

  lemma ReplySendsNothing(k: Crypto, n: Node, sender: Addr, ttl: Byte, cost: Byte, goal: Addr, pk: Pubkey)
    ensures var st := HandleReply(k, n, sender, ttl, cost, goal, pk); st.sent == multiset{} && st.tun == []
  {}
}
