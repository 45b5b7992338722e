/** What every input keeps at one node, whoever sent it. */
module NodeFacts {
  import opened Basics
  import opened NodeModel

  ghost predicate SameIdentity(a: Node, b: Node) {
    a.me == b.me && a.pip == b.pip && a.cred == b.cred
  }

  /** Nothing forgotten, nothing overwritten: routes are write-once and searches are kept. */
  ghost predicate Grows(a: Node, b: Node) {
    && (forall d <- a.routes :: d in b.routes && b.routes[d] == a.routes[d])
    && a.search.Keys <= b.search.Keys
  }

  /** Every route that is new in `b` is a direct one of `a`: to a peer whose key is known. */
  ghost predicate NewRoutesDirect(a: Node, b: Node) {
    forall d <- b.routes | d !in a.routes ::
      d in a.peers && a.peers[d].pubkey.Some? && b.routes[d].nexthop == a.peers[d].hip && b.routes[d].cost == 1
  }

  /** A datagram is sent to a peer, and says only what the state after the input can back. */
  ghost predicate SentOk(a: Node, b: Node, p: Packet) {
    && p.from == a.pip
    && p.entry in a.peers
    && p.to == a.peers[p.entry].pip
    && match p.msg
       case Query(g, ttl) => g !in a.search && g in b.search && ttl == b.search[g].ttlShouldUse % 256
       case Reply(_, cost, g, _) => g in b.routes && cost == b.routes[g].cost
       case Hi(c) => c == a.cred
       case Data(_, _, _, _, _) => true
  }

  lemma BroadcastMember(n: Node, msg: Msg, p: Packet)
    ensures p in Broadcast(n, msg) <==>
            p.entry in n.peers && p == Packet(n.pip, p.entry, n.peers[p.entry].pip, msg)
    ensures Broadcast(n, msg)[p] <= 1
  {
    var s := set h | h in n.peers :: Packet(n.pip, h, n.peers[h].pip, msg);
    assert p in Broadcast(n, msg) <==> p in s;
    if p.entry in n.peers && p == Packet(n.pip, p.entry, n.peers[p.entry].pip, msg) {
      assert p in s;
    }
  }

  lemma LookupFacts(n: Node, dst: Addr, reason: Reason, start: bool, ttl: int)
    ensures var r := GetRouteOrMaybeSearch(n, dst, reason, start, ttl);
            && SameIdentity(n, r.node) && Grows(n, r.node) && NewRoutesDirect(n, r.node)
            && r.node.peers == n.peers && r.node.black == n.black && r.node.tunnels == n.tunnels
            && (forall p <- r.sent :: SentOk(n, r.node, p))
            && (r.route.Some? ==> dst in r.node.routes && r.route.value == r.node.routes[dst]
                                  && r.sent == multiset{} && r.node.search == n.search)
            && (forall d <- r.node.search | d !in n.search :: d == dst)
  {
    var r := GetRouteOrMaybeSearch(n, dst, reason, start, ttl);
    forall p | p in r.sent ensures SentOk(n, r.node, p) {
      BroadcastMember(n, p.msg, p);
      if dst !in n.peers && dst !in n.routes && start && dst !in n.search {
        var s := AddRequest(NewSearch(), reason, ttl);
        BroadcastMember(n, Query(dst, s.ttlShouldUse % 256), p);
      }
    }
  }

  /** The branches of the forwarding function, one by one. */
  lemma DetailCases(n: Node, src: Addr, dst: Addr, next: Addr, reason: Reason, level: nat, ttl: int, nonce: Octets24, blob: Bytes)
    requires level <= 2 && ttl < 256
    ensures var f := RouteDetail(n, src, dst, next, reason, level, ttl, nonce, blob);
            && (ttl <= 0 || n.peers == map[] || (level > 1 && next !in n.peers) ==> f == Forward(n, multiset{}, None))
            && (ttl > 0 && next in n.peers ==>
                  f == Forward(n, multiset{Packet(n.pip, next, n.peers[next].pip, Data(src, dst, ttl, nonce, blob))}, Some(next)))
  {}

  lemma LookupKeepsPeers(n: Node, dst: Addr, reason: Reason, start: bool, ttl: int)
    ensures GetRouteOrMaybeSearch(n, dst, reason, start, ttl).node.peers == n.peers
  {}

  lemma DetailVia(n: Node, src: Addr, dst: Addr, next: Addr, reason: Reason, level: nat, ttl: int, nonce: Octets24, blob: Bytes)
    requires level <= 1 && 0 < ttl < 256 && n.peers != map[] && next !in n.peers
    ensures var f := RouteDetail(n, src, dst, next, reason, level, ttl, nonce, blob);
            var a := GetRouteOrMaybeSearch(n, next, reason, true, TTL_MAX_ACCEPTED);
            match a.route
            case None => f == Forward(a.node, a.sent, None)
            case Some(route) =>
              var rest := RouteDetail(a.node, src, dst, route.nexthop, reason, level + 1, ttl, nonce, blob);
              f == Forward(rest.node, a.sent + rest.sent, rest.chosen)
  {}

  lemma {:induction false} ForwardFacts(n: Node, src: Addr, dst: Addr, next: Addr, reason: Reason,
                                        level: nat, ttl: int, nonce: Octets24, blob: Bytes)
    requires level <= 2 && ttl < 256
    ensures var f := RouteDetail(n, src, dst, next, reason, level, ttl, nonce, blob);
            && SameIdentity(n, f.node) && Grows(n, f.node) && NewRoutesDirect(n, f.node)
            && f.node.peers == n.peers && f.node.black == n.black && f.node.tunnels == n.tunnels
            && (forall p <- f.sent :: SentOk(n, f.node, p))
            && (forall p <- f.sent :: p.msg.Query? || (f.chosen == Some(p.entry) && p.msg == Data(src, dst, ttl, nonce, blob)))
            && (f.chosen.Some? ==>
                  && 0 < ttl && f.node.search == n.search && f.chosen.value in n.peers
                  && f.sent == multiset{Packet(n.pip, f.chosen.value, n.peers[f.chosen.value].pip,
                                               Data(src, dst, ttl, nonce, blob))})
    decreases 2 - level
  {
    if ttl <= 0 || n.peers == map[] || next in n.peers || level > 1 {
      DetailCases(n, src, dst, next, reason, level, ttl, nonce, blob);
    } else {
      DetailVia(n, src, dst, next, reason, level, ttl, nonce, blob);
      hide RouteDetail;
      var found := GetRouteOrMaybeSearch(n, next, reason, true, TTL_MAX_ACCEPTED);
      LookupFacts(n, next, reason, true, TTL_MAX_ACCEPTED);
      match found.route {
        case None =>
          forall p | p in found.sent ensures p.msg.Query? {
            if next !in n.search {
              BroadcastMember(n, Query(next, AddRequest(NewSearch(), reason, TTL_MAX_ACCEPTED).ttlShouldUse % 256), p);
            }
          }
        case Some(route) =>
          hide GetRouteOrMaybeSearch;
          ForwardFacts(found.node, src, dst, route.nexthop, reason, level + 1, ttl, nonce, blob);
      }
    }
  }

  /** Forwarding stores no route. */
  lemma {:induction false} DetailKeepsRoutes(n: Node, src: Addr, dst: Addr, next: Addr, reason: Reason,
                                             level: nat, ttl: int, nonce: Octets24, blob: Bytes)
    requires level <= 2 && ttl < 256
    ensures RouteDetail(n, src, dst, next, reason, level, ttl, nonce, blob).node.routes == n.routes
    decreases 2 - level
  {
    if ttl <= 0 || n.peers == map[] || next in n.peers || level > 1 {
      DetailCases(n, src, dst, next, reason, level, ttl, nonce, blob);
    } else {
      DetailVia(n, src, dst, next, reason, level, ttl, nonce, blob);
      var found := GetRouteOrMaybeSearch(n, next, reason, true, TTL_MAX_ACCEPTED);
      assert found.node.routes == n.routes;
      hide RouteDetail;
      if found.route.Some? {
        DetailKeepsRoutes(found.node, src, dst, found.route.value.nexthop, reason, level + 1, ttl, nonce, blob);
      }
    }
  }

  /** The peer that data for `d` is handed to: `d`, else its stored next hop, else the next hop stored for that one. */
  function NextHop(n: Node, d: Addr): Option<Addr> {
    if d in n.peers then Some(d)
    else if d !in n.routes then None
    else
      var h := n.routes[d].nexthop;
      if h in n.peers then Some(h)
      else if h in n.routes && n.routes[h].nexthop in n.peers then Some(n.routes[h].nexthop)
      else None
  }

  /** The tables lead from `d` to a peer within two look-ups. */
  predicate CanForward(n: Node, d: Addr) {
    || d in n.peers
    || (&& d in n.routes
        && var h := n.routes[d].nexthop;
           h in n.peers || (h in n.routes && n.routes[h].nexthop in n.peers))
  }

  /** Which peer the recursion ends with, for any tables: exactly when they lead to one and the TTL is not used up. */
  lemma ForwardChoice(n: Node, src: Addr, d: Addr, reason: Reason, ttl: int, nonce: Octets24, blob: Bytes)
    requires ttl < 256
    ensures var f := RouteTop(n, src, d, reason, ttl, nonce, blob);
            && f.chosen == (if ttl <= 0 then None else NextHop(n, d))
            && (f.chosen.Some? <==> ttl > 0 && CanForward(n, d))
            && (f.chosen.Some? ==> f.node == n)
  {
    if 0 < ttl && n.peers != map[] && d !in n.peers && d in n.routes {
      var h := n.routes[d].nexthop;
      DetailVia(n, src, d, d, reason, 0, ttl, nonce, blob);
      if h !in n.peers && h in n.routes {
        DetailVia(n, src, d, h, reason, 1, ttl, nonce, blob);
        DetailCases(n, src, d, n.routes[h].nexthop, reason, 2, ttl, nonce, blob);
      } else if h !in n.peers {
        DetailVia(n, src, d, h, reason, 1, ttl, nonce, blob);
      } else {
        DetailCases(n, src, d, h, reason, 1, ttl, nonce, blob);
      }
      hide RouteDetail;
    }
  }

  /** The input is a reply about `d` from the recognised peer `h`. */
  ghost predicate TellsRoute(input: Input, d: Addr, h: Addr, cost: Byte) {
    && input.FromUdp? && input.sender == Some(h)
    && input.msg.Reply? && input.msg.rgoal == d && input.msg.cost == cost
  }

  /** A new route is direct, or repeats a reply: its next hop is the peer that sent the reply. */
  ghost predicate NewRoutesExplained(a: Node, input: Input, b: Node) {
    forall d <- b.routes | d !in a.routes ::
      || (d in a.peers && a.peers[d].pubkey.Some? && b.routes[d].nexthop == a.peers[d].hip && b.routes[d].cost == 1)
      || TellsRoute(input, d, b.routes[d].nexthop, b.routes[d].cost)
  }

  /** The input touched routes and searches only, and every route it added is direct. */
  ghost predicate RoutingOnly(n: Node, st: Step) {
    && SameIdentity(n, st.node) && Grows(n, st.node) && NewRoutesDirect(n, st.node)
    && st.node.peers == n.peers && st.node.black == n.black && st.node.tunnels == n.tunnels
    && (forall p <- st.sent :: SentOk(n, st.node, p))
  }

  lemma TunFacts(k: Crypto, n: Node, frame: Bytes, nonce: Octets24)
    ensures RoutingOnly(n, HandleTun(k, n, frame, nonce))
  {
    if |frame| >= 44 {
      var src, dst, reason := FrameSource(frame), FrameDestination(frame), Reason(ZERO_ADDR, RouteOwnPacket);
      if dst in n.tunnels {
        ForwardFacts(n, src, dst, dst, reason, 0, DATA_ROUTE_TTL, nonce, k.box(n.tunnels[dst], nonce, Cleartext(frame)));
      } else {
        ForwardFacts(n, src, dst, dst, reason, 0, DATA_ROUTE_TTL, k.dummyNonce, []);
      }
    }
  }

  lemma DataFacts(k: Crypto, n: Node, src: Addr, dst: Addr, ttl: Byte, nonce: Octets24, blob: Bytes)
    ensures RoutingOnly(n, HandleData(k, n, src, dst, ttl, nonce, blob))
  {
    if dst == n.me {
      ForwardFacts(n, dst, src, src, Reason(ZERO_ADDR, RouteOwnPacket), 0, ttl, k.dummyNonce, []);
    } else {
      ForwardFacts(n, src, dst, dst, Reason(src, RouteOtherPacket), 0, ClampTtl(ttl), nonce, blob);
    }
  }

  lemma QueryFacts(n: Node, sender: Addr, goal: Addr, ttl: Byte)
    ensures RoutingOnly(n, HandleQuery(n, sender, goal, ttl))
  {
    LookupFacts(n, goal, Reason(sender, HelpFind), true, SignedByte(ttl) - 1);
  }

  /** Messages other than `public_hi` and replies change routing only. */
  lemma UdpFacts(k: Crypto, n: Node, from: Pip, sender: Option<Addr>, msg: Msg)
    requires msg.Query? || msg.Data?
    ensures RoutingOnly(n, HandleUdp(k, n, from, sender, msg))
  {
    match sender
    case None =>
    case Some(h) =>
      if msg.Query? {
        QueryFacts(n, h, msg.goal, msg.ttl);
      } else {
        DataFacts(k, n, msg.src, msg.dst, msg.dttl, msg.nonce, msg.blob);
      }
  }

  ghost predicate Explained(n: Node, input: Input, st: Step) {
    && SameIdentity(n, st.node) && Grows(n, st.node) && NewRoutesExplained(n, input, st.node)
    && (forall p <- st.sent :: SentOk(n, st.node, p))
  }

  lemma ReplyExplained(k: Crypto, n: Node, from: Pip, sender: Option<Addr>, msg: Msg)
    requires msg.Reply?
    ensures Explained(n, FromUdp(from, sender, msg), HandleUdp(k, n, from, sender, msg))
  {}

  lemma HiExplained(k: Crypto, n: Node, from: Pip, sender: Option<Addr>, msg: Msg)
    requires msg.Hi?
    ensures Explained(n, FromUdp(from, sender, msg), HandleUdp(k, n, from, sender, msg))
  {
    HiKeepsRouting(k, n, from, msg.cred);
    hide HandleHi;
  }

  lemma HiKeepsRouting(k: Crypto, n: Node, from: Pip, cred: Credentials)
    ensures var st := HandleHi(k, n, from, cred);
            SameIdentity(n, st.node) && st.node.routes == n.routes && st.node.search == n.search && st.sent == multiset{}
  {
    var ref := PeerRef(from, k.hipOf(cred.idi));
    AppendKeepsRouting(n, ref, cred.idi);
    TunnelKeepsRouting(k, AddPeerAppendPubkey(n, ref, cred.idi), cred.idi);
    hide AddPeerAppendPubkey, AddTunnel;
  }

  lemma AppendKeepsRouting(n: Node, ref: PeerRef, pk: Pubkey)
    ensures AddPeerAppendPubkey(n, ref, pk) == n.(peers := AddPeerAppendPubkey(n, ref, pk).peers)
  {}

  lemma TunnelKeepsRouting(k: Crypto, n: Node, pk: Pubkey)
    ensures AddTunnel(k, n, pk) == n.(tunnels := AddTunnel(k, n, pk).tunnels)
  {}

  /** `public_hi` changes at most the entry filed under the sender's own key, which gets the sender's physical address. */
  lemma HiPeers(k: Crypto, n: Node, from: Pip, cred: Credentials)
    ensures var n' := HandleHi(k, n, from, cred).node;
            forall h <- n'.peers ::
              || (h in n.peers && n'.peers[h] == n.peers[h])
              || (&& h == k.hipOf(cred.idi) && n'.peers[h].pip == from
                  && n'.peers[h].hip == if h in n.peers then n.peers[h].hip else h)
  {}

  lemma PingExplained(n: Node)
    ensures Explained(n, PingAll, Step(n, Broadcast(n, Hi(n.cred)), []))
  {
    forall p | p in Broadcast(n, Hi(n.cred)) ensures SentOk(n, n, p) {
      BroadcastMember(n, Hi(n.cred), p);
    }
  }

  lemma RoutingExplained(n: Node, input: Input, st: Step)
    requires RoutingOnly(n, st)
    ensures Explained(n, input, st)
  {}

  lemma HandleFacts(k: Crypto, n: Node, input: Input)
    ensures Explained(n, input, Handle(k, n, input))
  {
    match input
    case FromTun(frame, nonce) =>
      TunFacts(k, n, frame, nonce);
      RoutingExplained(n, input, HandleTun(k, n, frame, nonce));
    case FromUdp(from, sender, msg) =>
      match msg {
        case Reply(_, _, _, _) => ReplyExplained(k, n, from, sender, msg);
        case Hi(_) => HiExplained(k, n, from, sender, msg);
        case _ =>
          UdpFacts(k, n, from, sender, msg);
          RoutingExplained(n, input, HandleUdp(k, n, from, sender, msg));
      }
    case PingAll => PingExplained(n);
    case _ =>
  }

  // ---------------------------------------------------------------- the peer tables, whatever arrives

  /** Peers and black list are disjoint; every entry, key and tunnel is filed under the address its key hashes to. */
  ghost predicate TablesOk(k: Crypto, n: Node) {
    && n.peers.Keys !! n.black
    && (forall h <- n.peers :: n.peers[h].hip == h && (n.peers[h].pubkey.Some? ==> k.hipOf(n.peers[h].pubkey.value) == h))
    && (forall h <- n.tunnels :: k.hipOf(n.tunnels[h]) == h)
  }

  lemma HiKeepsTables(k: Crypto, n: Node, from: Pip, cred: Credentials)
    requires TablesOk(k, n)
    ensures TablesOk(k, HandleHi(k, n, from, cred).node)
  {
    var ref := PeerRef(from, k.hipOf(cred.idi));
    KeyKeepsTables(k, n, ref, cred.idi);
    TunnelKeepsTables(k, AddPeerAppendPubkey(n, ref, cred.idi), cred.idi);
    hide TablesOk, AddPeerAppendPubkey, AddTunnel;
  }

  lemma KeyKeepsTables(k: Crypto, n: Node, ref: PeerRef, pk: Pubkey)
    requires TablesOk(k, n) && k.hipOf(pk) == ref.hip
    ensures TablesOk(k, AddPeerAppendPubkey(n, ref, pk))
  {}

  lemma TunnelKeepsTables(k: Crypto, n: Node, pk: Pubkey)
    requires TablesOk(k, n)
    ensures TablesOk(k, AddTunnel(k, n, pk))
  {}

  lemma UdpKeepsTables(k: Crypto, n: Node, from: Pip, sender: Option<Addr>, msg: Msg)
    requires TablesOk(k, n)
    ensures TablesOk(k, HandleUdp(k, n, from, sender, msg).node)
  {
    hide HandleHi, HandleQuery, HandleData;
    match msg
    case Hi(cred) => HiKeepsTables(k, n, from, cred);
    case Reply(_, _, _, pk) => TunnelKeepsTables(k, n, pk);
    case _ => UdpFacts(k, n, from, sender, msg);
  }

  /** Any message from anyone, any TUN frame and every peer operation keeps the tables consistent. */
  lemma TablesKept(k: Crypto, n: Node, input: Input)
    requires TablesOk(k, n)
    ensures TablesOk(k, Handle(k, n, input).node)
  {
    match input
    case FromTun(frame, nonce) => TunFacts(k, n, frame, nonce);
    case FromUdp(from, sender, msg) => UdpKeepsTables(k, n, from, sender, msg);
    case _ =>
  }

  /** The state of a node after a list of inputs. */
  ghost function After(k: Crypto, n: Node, inputs: seq<Input>): Node
    decreases |inputs|
  {
    if inputs == [] then n else After(k, Handle(k, n, inputs[0]).node, inputs[1..])
  }

  lemma {:induction false} TablesAlwaysConsistent(k: Crypto, n: Node, inputs: seq<Input>)
    requires TablesOk(k, n)
    ensures TablesOk(k, After(k, n, inputs))
    decreases |inputs|
  {
    if inputs != [] {
      TablesKept(k, n, inputs[0]);
      TablesAlwaysConsistent(k, Handle(k, n, inputs[0]).node, inputs[1..]);
    }
  }
}
