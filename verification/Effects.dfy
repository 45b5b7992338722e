/** What each input does at one node, exactly: what is sent and to whom, what is learned, and when nothing happens. */
module Effects {
  import opened Basics
  import opened NodeModel
  import opened NodeFacts

  // ---------------------------------------------------------------- sending to every peer

  /** One copy of the message went to each peer, and nothing else was sent. */
  ghost predicate ToEveryPeer(n: Node, sent: multiset<Packet>, msg: Msg) {
    && (forall h <- n.peers :: sent[Packet(n.pip, h, n.peers[h].pip, msg)] == 1)
    && (forall p <- sent :: p.entry in n.peers && p == Packet(n.pip, p.entry, n.peers[p.entry].pip, msg))
  }

  lemma BroadcastReachesAll(n: Node, msg: Msg)
    ensures ToEveryPeer(n, Broadcast(n, msg), msg)
  {
    forall p | p in Broadcast(n, msg) ensures p.entry in n.peers && p == Packet(n.pip, p.entry, n.peers[p.entry].pip, msg) {
      BroadcastMember(n, msg, p);
    }
    forall h | h in n.peers ensures Broadcast(n, msg)[Packet(n.pip, h, n.peers[h].pip, msg)] == 1 {
      var all := set g | g in n.peers :: Packet(n.pip, g, n.peers[g].pip, msg);
      assert Packet(n.pip, h, n.peers[h].pip, msg) in all;
    }
  }

  /** A ping sends the node's credentials to every peer and changes nothing. */
  lemma PingReachesAll(k: Crypto, n: Node)
    ensures var st := Handle(k, n, PingAll);
            st.node == n && st.tun == [] && ToEveryPeer(n, st.sent, Hi(n.cred))
  {
    BroadcastReachesAll(n, Hi(n.cred));
  }

  // ---------------------------------------------------------------- looking up a route

  /** Looking for an unknown destination for the first time asks every peer once, and keeps who asked for it. */
  lemma UnknownIsAsked(n: Node, dst: Addr, reason: Reason, ttl: int)
    requires dst !in n.peers && dst !in n.routes && dst !in n.search
    ensures var a := GetRouteOrMaybeSearch(n, dst, reason, true, ttl);
            && a.route == None && ToEveryPeer(n, a.sent, Query(dst, Max(5, ttl) % 256))
            && dst in a.node.search && a.node.search[dst].requests == map[reason := ttl]
            && a.node == n.(search := n.search[dst := a.node.search[dst]])
  {
    BroadcastReachesAll(n, Query(dst, Max(5, ttl) % 256));
  }

  /** Looking for it again asks nobody, but counts the request. */
  lemma UnknownIsAskedOnce(n: Node, dst: Addr, reason: Reason, ttl: int)
    requires dst !in n.peers && dst !in n.routes && dst in n.search
    ensures var a := GetRouteOrMaybeSearch(n, dst, reason, true, ttl);
            && a.route == None && a.sent == multiset{} && dst in a.node.search
            && reason in a.node.search[dst].requests && ttl <= a.node.search[dst].requests[reason]
            && a.node.search[dst].ttlShouldUse == Max(n.search[dst].ttlShouldUse, ttl)
            && a.node == n.(search := n.search[dst := a.node.search[dst]])
  {}

  /** A peer has a route exactly when its key is known: the stored one, else a direct one, which is stored. */
  lemma PeerHasRoute(n: Node, dst: Addr, reason: Reason, start: bool, ttl: int)
    requires dst in n.peers
    ensures var a := GetRouteOrMaybeSearch(n, dst, reason, start, ttl);
            && a.sent == multiset{} && (a.route.Some? <==> n.peers[dst].pubkey.Some?)
            && (a.route.None? ==> a.node == n)
            && (a.route.Some? ==>
                  && dst in a.node.routes && a.route == Some(a.node.routes[dst])
                  && a.node == n.(routes := n.routes[dst := a.route.value])
                  && a.route.value == if dst in n.routes then n.routes[dst]
                                      else Route(n.peers[dst].hip, 1, n.peers[dst].pubkey.value))
  {
    if dst in n.routes {
      assert n.routes[dst := n.routes[dst]] == n.routes;
    }
  }

  lemma StoredRoute(n: Node, dst: Addr, reason: Reason, start: bool, ttl: int)
    requires dst !in n.peers && dst in n.routes
    ensures GetRouteOrMaybeSearch(n, dst, reason, start, ttl) == RouteAnswer(n, multiset{}, Some(n.routes[dst]))
  {}

  // ---------------------------------------------------------------- a query

  /** The node can answer a query for the goal. */
  predicate CanAnswer(n: Node, goal: Addr) {
    if goal in n.peers then n.peers[goal].pubkey.Some? else goal in n.routes
  }

  /** The TTL octet of a query asks for at least one hop: it is 1 to 127, since it travels signed. */
  predicate Asking(ttl: Byte) {
    1 <= ttl <= 127
  }

  /**
   * A query from a peer, with such a TTL and a goal that can be answered, gets exactly one reply, to that peer: the TTL it
   * asked with, the goal, and the cost and key of the route that the node then has.
   */
  lemma QueryAnswered(n: Node, sender: Addr, goal: Addr, ttl: Byte)
    requires Asking(ttl) && sender in n.peers && CanAnswer(n, goal)
    ensures var st := HandleQuery(n, sender, goal, ttl);
            && goal in st.node.routes && (goal in n.routes ==> st.node.routes[goal] == n.routes[goal])
            && (goal !in n.routes ==> st.node.routes[goal] == Route(n.peers[goal].hip, 1, n.peers[goal].pubkey.value))
            && st.node == n.(routes := n.routes[goal := st.node.routes[goal]]) && st.tun == []
            && st.sent == multiset{Packet(n.pip, sender, n.peers[sender].pip,
                                          Reply(ttl, st.node.routes[goal].cost, goal, st.node.routes[goal].pubkey))}
  {
    if goal in n.peers {
      PeerHasRoute(n, goal, Reason(sender, HelpFind), true, ttl - 1);
    } else {
      StoredRoute(n, goal, Reason(sender, HelpFind), true, ttl - 1);
      assert n.routes[goal := n.routes[goal]] == n.routes;
    }
  }

  lemma QueryLooksUp(n: Node, sender: Addr, goal: Addr, ttl: Byte)
    requires Asking(ttl) && sender in n.peers
    ensures var a := GetRouteOrMaybeSearch(n, goal, Reason(sender, HelpFind), true, ttl - 1);
            a.route.None? ==> HandleQuery(n, sender, goal, ttl) == Step(a.node, a.sent, [])
  {
    hide GetRouteOrMaybeSearch;
  }

  /**
   * Any other query gets no reply. One that asks for nothing, or comes from nobody known, or for a peer without a key,
   * does nothing; one for an unknown goal asks every peer the first time and nobody afterwards.
   */
  lemma QueryNotAnswered(n: Node, sender: Addr, goal: Addr, ttl: Byte)
    requires !(Asking(ttl) && sender in n.peers && CanAnswer(n, goal))
    ensures var st := HandleQuery(n, sender, goal, ttl);
            && st.tun == []
            && (!Asking(ttl) || sender !in n.peers || goal in n.peers ==> st == Step(n, multiset{}, []))
            && (Asking(ttl) && sender in n.peers && goal !in n.peers ==>
                  && goal in st.node.search && Reason(sender, HelpFind) in st.node.search[goal].requests
                  && (goal !in n.search ==> ToEveryPeer(n, st.sent, Query(goal, Max(5, ttl - 1))))
                  && (goal in n.search ==> st.sent == multiset{}))
  {
    if Asking(ttl) && sender in n.peers {
      QueryLooksUp(n, sender, goal, ttl);
      hide GetRouteOrMaybeSearch, HandleQuery, ToEveryPeer;
      if goal in n.peers {
        PeerHasRoute(n, goal, Reason(sender, HelpFind), true, ttl - 1);
      } else if goal !in n.search {
        UnknownIsAsked(n, goal, Reason(sender, HelpFind), ttl - 1);
      } else {
        UnknownIsAskedOnce(n, goal, Reason(sender, HelpFind), ttl - 1);
      }
    }
  }

  // ---------------------------------------------------------------- a reply

  /** A reply with a TTL leaves a route and a tunnel: what was known stays, what was not is as the reply says. */
  lemma ReplyTeaches(k: Crypto, n: Node, sender: Addr, ttl: Byte, cost: Byte, goal: Addr, pk: Pubkey)
    ensures var n', h := HandleReply(k, n, sender, ttl, cost, goal, pk).node, k.hipOf(pk);
            if ttl == 0 then n' == n
            else
              && goal in n'.routes && n'.routes[goal] == (if goal in n.routes then n.routes[goal] else Route(sender, cost, pk))
              && h in n'.tunnels && n'.tunnels[h] == (if h in n.tunnels then n.tunnels[h] else pk)
              && n' == n.(routes := n.routes[goal := n'.routes[goal]], tunnels := n.tunnels[h := n'.tunnels[h]])
    ensures var st := HandleReply(k, n, sender, ttl, cost, goal, pk); st.sent == multiset{} && st.tun == []
  {
    var h := k.hipOf(pk);
    if h in n.tunnels {
      assert n.tunnels[h := n.tunnels[h]] == n.tunnels;
    }
    if goal in n.routes {
      assert n.routes[goal := n.routes[goal]] == n.routes;
    }
  }

  // ---------------------------------------------------------------- public_hi

  /** Credentials that do not verify change nothing. */
  lemma ForgedHiRefused(k: Crypto, n: Node, from: Pip, cred: Credentials)
    requires !k.verifies(cred)
    ensures HandleHi(k, n, from, cred) == Step(n, multiset{}, [])
  {}

  /**
   * Credentials that verify make their owner a peer at the address they came from, with its key, unless it is banned and
   * not a peer; and in any case open a tunnel, unless there is one.
   */
  lemma HiAccepted(k: Crypto, n: Node, from: Pip, cred: Credentials)
    requires k.verifies(cred)
    ensures var st, h := HandleHi(k, n, from, cred), k.hipOf(cred.idi);
            && st.sent == multiset{} && st.tun == []
            && (h in n.peers || h !in n.black ==>
                  && h in st.node.peers && st.node.peers[h].pip == from && st.node.peers[h].pubkey == Some(cred.idi)
                  && st.node.peers[h].hip == (if h in n.peers then n.peers[h].hip else h)
                  && st.node.peers.Keys == n.peers.Keys + {h})
            && (h !in n.peers && h in n.black ==> st.node.peers == n.peers)
            && (forall g <- n.peers | g != h :: g in st.node.peers && st.node.peers[g] == n.peers[g])
            && h in st.node.tunnels && st.node.tunnels[h] == (if h in n.tunnels then n.tunnels[h] else cred.idi)
            && (forall g <- n.tunnels :: g in st.node.tunnels && st.node.tunnels[g] == n.tunnels[g])
            && st.node == n.(peers := st.node.peers, tunnels := st.node.tunnels)
  {}

  // ---------------------------------------------------------------- data

  /** Data for somebody else is sent on exactly when it has two hops left and the tables lead to a peer; with at most five. */
  lemma RelayExactly(k: Crypto, n: Node, from: Pip, h: Addr, m: Msg)
    requires m.Data? && m.dst != n.me
    ensures var st := HandleUdp(k, n, from, Some(h), m);
            if m.dttl >= 2 && CanForward(n, m.dst) then
              var hop := NextHop(n, m.dst).value;
              && hop in n.peers && st.node == n && st.tun == []
              && st.sent == multiset{Packet(n.pip, hop, n.peers[hop].pip,
                                            m.(dttl := if m.dttl > 6 then 5 else m.dttl - 1))}
            else
              st.tun == [] && forall p <- st.sent :: p.msg.Query?
  {
    var ttl := ClampTtl(m.dttl);
    ForwardChoice(n, m.src, m.dst, Reason(m.src, RouteOtherPacket), ttl, m.nonce, m.blob);
    ForwardFacts(n, m.src, m.dst, m.dst, Reason(m.src, RouteOtherPacket), 0, ttl, m.nonce, m.blob);
    hide RouteDetail;
  }

  /** Data for an unknown destination makes the relay ask its peers for it, on behalf of the source. */
  lemma RelayAsks(k: Crypto, n: Node, from: Pip, h: Addr, m: Msg)
    requires m.Data? && m.dst != n.me && m.dttl >= 2 && n.peers != map[]
    requires m.dst !in n.peers && m.dst !in n.routes && m.dst !in n.search
    ensures var st := HandleUdp(k, n, from, Some(h), m);
            && ToEveryPeer(n, st.sent, Query(m.dst, 5)) && m.dst in st.node.search
            && st.node.search[m.dst].requests == map[Reason(m.src, RouteOtherPacket) := 5]
  {
    var reason, ttl := Reason(m.src, RouteOtherPacket), ClampTtl(m.dttl);
    DetailVia(n, m.src, m.dst, m.dst, reason, 0, ttl, m.nonce, m.blob);
    UnknownIsAsked(n, m.dst, reason, TTL_MAX_ACCEPTED);
    hide RouteDetail, GetRouteOrMaybeSearch, ToEveryPeer;
  }

  /**
   * What reaches the TUN device: exactly packets that the tunnel of their claimed source opens, of TCP, UDP or ICMPv6,
   * whose own source address is that source. They get the header of an IPv6 frame, and this node as destination.
   */
  lemma WrittenExactly(k: Crypto, n: Node, m: Msg)
    requires m.Data? && m.dst == n.me && m.src in n.tunnels
    ensures var st := HandleData(k, n, m.src, m.dst, m.dttl, m.nonce, m.blob);
            && st.node == n && st.sent == multiset{}
            && match k.unbox(n.tunnels[m.src], m.nonce, m.blob)
               case None => st.tun == []
               case Some(clear) =>
                 if |clear| >= 24 && clear[6] in {6, 17, 58} && clear[8..24] == m.src.octets then
                   && |st.tun| == 1 && |st.tun[0]| == |clear| + 20
                   && st.tun[0][..4] == [0x00, 0x00, 0x86, 0xDD] && st.tun[0][4..28] == clear[..24]
                   && st.tun[0][12..28] == m.src.octets && st.tun[0][28..44] == n.me.octets && st.tun[0][44..] == clear[24..]
                 else
                   st.tun == []
  {
    match k.unbox(n.tunnels[m.src], m.nonce, m.blob)
    case None =>
    case Some(clear) =>
      if |clear| >= 24 {
        var packet := clear[..24] + m.dst.octets + clear[24..];
        assert packet[8..24] == clear[8..24] && packet[..24] == clear[..24];
        var frame := TUN_HEADER + packet;
        assert frame[..4] == TUN_HEADER && frame[4..28] == packet[..24] && frame[12..28] == packet[8..24];
        assert frame[28..44] == m.dst.octets && frame[44..] == clear[24..];
      }
  }

  // ---------------------------------------------------------------- a frame from TUN

  /** A frame that is too short or for no galaxy address does nothing. */
  lemma StrangeFrameIgnored(k: Crypto, n: Node, frame: Bytes, nonce: Octets24)
    requires |frame| < 44 || frame[28] != 0xFD
    ensures HandleTun(k, n, frame, nonce) == Step(n, multiset{}, [])
  {}

  /** A frame for an unknown destination asks every peer for it, on the node's own behalf. */
  lemma FrameAsks(k: Crypto, n: Node, frame: Bytes, nonce: Octets24)
    requires |frame| >= 44 && frame[28] == 0xFD && n.peers != map[]
    requires var dst := FrameDestination(frame); dst !in n.peers && dst !in n.routes && dst !in n.search
    ensures var st, dst := HandleTun(k, n, frame, nonce), FrameDestination(frame);
            && ToEveryPeer(n, st.sent, Query(dst, 5)) && dst in st.node.search && st.tun == []
            && st.node.search[dst].requests == map[Reason(ZERO_ADDR, RouteOwnPacket) := 5]
            && st.node == n.(search := n.search[dst := st.node.search[dst]])
  {
    var src, dst, reason := FrameSource(frame), FrameDestination(frame), Reason(ZERO_ADDR, RouteOwnPacket);
    UnknownIsAsked(n, dst, reason, TTL_MAX_ACCEPTED);
    if dst in n.tunnels {
      DetailVia(n, src, dst, dst, reason, 0, DATA_ROUTE_TTL, nonce, k.box(n.tunnels[dst], nonce, Cleartext(frame)));
    } else {
      DetailVia(n, src, dst, dst, reason, 0, DATA_ROUTE_TTL, k.dummyNonce, []);
    }
    hide RouteDetail, GetRouteOrMaybeSearch, ToEveryPeer;
  }
}
