/** Honest runs never build a routing loop, and every route, query and reply of a run looks the same. */
module LoopFreedom {
  import opened Basics
  import opened NodeModel
  import opened NodeFacts
  import opened Network

  // ---------------------------------------------------------------- one node: equal costs, equal TTLs

  /** Queries carry TTL 5 and replies cost 1. */
  predicate UniformMsg(m: Msg) {
    (m.Query? ==> m.ttl == 5) && (m.Reply? ==> m.cost == 1)
  }

  ghost predicate UniformStep(n: Node, st: Step) {
    UniformNode(n) ==> UniformNode(st.node) && forall p <- st.sent :: UniformMsg(p.msg)
  }

  lemma LookupUniform(n: Node, dst: Addr, reason: Reason, start: bool, ttl: int)
    requires UniformNode(n) && ttl <= 5
    ensures var r := GetRouteOrMaybeSearch(n, dst, reason, start, ttl);
            && UniformNode(r.node) && (r.route.Some? ==> r.route.value.cost == 1)
            && forall p <- r.sent :: UniformMsg(p.msg)
  {
    var r := GetRouteOrMaybeSearch(n, dst, reason, start, ttl);
    LookupFacts(n, dst, reason, start, ttl);
  }

  lemma {:induction false} ForwardUniform(n: Node, src: Addr, dst: Addr, next: Addr, reason: Reason,
                                          level: nat, ttl: int, nonce: Octets24, blob: Bytes)
    requires UniformNode(n) && level <= 2 && ttl < 256
    ensures var f := RouteDetail(n, src, dst, next, reason, level, ttl, nonce, blob);
            UniformNode(f.node) && forall p <- f.sent :: UniformMsg(p.msg)
    decreases 2 - level
  {
    if ttl <= 0 || n.peers == map[] || next in n.peers || level > 1 {
    } else {
      LookupUniform(n, next, reason, true, TTL_MAX_ACCEPTED);
      var found := GetRouteOrMaybeSearch(n, next, reason, true, TTL_MAX_ACCEPTED);
      if found.route.Some? {
        ForwardUniform(found.node, src, dst, found.route.value.nexthop, reason, level + 1, ttl, nonce, blob);
      }
    }
  }

  lemma TunUniform(k: Crypto, n: Node, frame: Bytes, nonce: Octets24)
    requires UniformNode(n)
    ensures UniformStep(n, HandleTun(k, n, frame, nonce))
  {
    if |frame| >= 44 {
      var src, dst, reason := FrameSource(frame), FrameDestination(frame), Reason(ZERO_ADDR, RouteOwnPacket);
      if dst in n.tunnels {
        ForwardUniform(n, src, dst, dst, reason, 0, DATA_ROUTE_TTL, nonce, k.box(n.tunnels[dst], nonce, Cleartext(frame)));
      } else {
        ForwardUniform(n, src, dst, dst, reason, 0, DATA_ROUTE_TTL, k.dummyNonce, []);
      }
    }
  }

  lemma DataUniform(k: Crypto, n: Node, src: Addr, dst: Addr, ttl: Byte, nonce: Octets24, blob: Bytes)
    requires UniformNode(n)
    ensures UniformStep(n, HandleData(k, n, src, dst, ttl, nonce, blob))
  {
    if dst == n.me {
      ForwardUniform(n, dst, src, src, Reason(ZERO_ADDR, RouteOwnPacket), 0, ttl, k.dummyNonce, []);
    } else {
      ForwardUniform(n, src, dst, dst, Reason(src, RouteOtherPacket), 0, ClampTtl(ttl), nonce, blob);
    }
  }

  lemma QueryUniform(n: Node, sender: Addr, goal: Addr)
    requires UniformNode(n)
    ensures UniformStep(n, HandleQuery(n, sender, goal, 5))
  {
    LookupUniform(n, goal, Reason(sender, HelpFind), true, 4);
  }

  lemma UdpUniform(k: Crypto, n: Node, from: Pip, sender: Option<Addr>, msg: Msg)
    requires UniformNode(n) && UniformMsg(msg)
    ensures UniformStep(n, HandleUdp(k, n, from, sender, msg))
  {
    if sender.Some? {
      match msg
      case Query(goal, _) => QueryUniform(n, sender.value, goal);
      case Data(src, dst, ttl, nonce, blob) => DataUniform(k, n, src, dst, ttl, nonce, blob);
      case _ =>
    }
  }

  lemma HandleUniform(k: Crypto, n: Node, input: Input)
    requires UniformNode(n)
    requires input.FromUdp? ==> UniformMsg(input.msg)
    ensures UniformStep(n, Handle(k, n, input))
  {
    match input
    case FromTun(frame, nonce) => TunUniform(k, n, frame, nonce);
    case FromUdp(from, sender, msg) => UdpUniform(k, n, from, sender, msg);
    case PingAll =>
      forall p | p in Broadcast(n, Hi(n.cred)) ensures UniformMsg(p.msg) {
        BroadcastMember(n, Hi(n.cred), p);
      }
    case _ =>
  }

  // ---------------------------------------------------------------- one event keeps the invariant

  /** In an honest network the peer that is recognised as the sender is the node that backs the datagram. */
  lemma SenderIsBacker(k: Crypto, s: Net, x: Addr, p: Packet, sender: Option<Addr>) returns (y: Addr)
    requires Inv(k, s) && x in s.nodes && p in s.flight && Recognised(s.nodes[x], p.from, sender)
    ensures BackedBy(s.nodes, p, y)
    ensures sender.Some? ==> sender.value == y
  {
    assert Backed(s.nodes, p);
    y :| BackedBy(s.nodes, p, y);
    if sender.Some? {
      assert PipOk(s.nodes, sender.value, s.nodes[x].peers[sender.value].pip);
    }
  }

  lemma GrowthByOne(nodes: Nodes, x: Addr, n: Node)
    requires x in nodes && SameIdentity(nodes[x], n) && Grows(nodes[x], n)
    ensures AllGrow(nodes, nodes[x := n])
  {}

  lemma BackingKept(a: Nodes, b: Nodes, p: Packet)
    requires AllGrow(a, b) && Backed(a, p)
    ensures Backed(b, p)
  {
    var y :| BackedBy(a, p, y);
    assert y in b && SameIdentity(a[y], b[y]) && Grows(a[y], b[y]);
    assert BackedBy(b, p, y);
  }

  lemma SentIsBacked(a: Nodes, x: Addr, n: Node, p: Packet)
    requires x in a && SentOk(a[x], n, p) && SameIdentity(a[x], n)
    requires UniformMsg(p.msg)
    ensures Backed(a[x := n], p)
  {
    assert BackedBy(a[x := n], p, x);
  }

  lemma HiKeepsPeersHonest(k: Crypto, s: Net, x: Addr, p: Packet, sender: Option<Addr>)
    requires Inv(k, s) && Enabled(s, Deliver(x, p, sender)) && p.msg.Hi?
    ensures var n := HandleHi(k, s.nodes[x], p.from, p.msg.cred).node;
            forall h <- n.peers :: n.peers[h].hip == h && PipOk(s.nodes, h, n.peers[h].pip)
  {
    var y := SenderIsBacker(k, s, x, p, sender);
    assert PipOk(s.nodes, y, p.from) && k.hipOf(p.msg.cred.idi) == y;
    HiPeers(k, s.nodes[x], p.from, p.msg.cred);
    var n := HandleHi(k, s.nodes[x], p.from, p.msg.cred).node;
    forall h | h in n.peers ensures n.peers[h].hip == h && PipOk(s.nodes, h, n.peers[h].pip) {
      assert h in s.nodes[x].peers ==> PipOk(s.nodes, h, s.nodes[x].peers[h].pip);
    }
  }

  lemma PeersStayHonest(k: Crypto, s: Net, e: Event)
    requires Inv(k, s) && Enabled(s, e) && Acts(e)
    ensures var n := StepOf(k, s, e).node;
            forall h <- n.peers :: n.peers[h].hip == h && PipOk(s.nodes, h, n.peers[h].pip)
  {
    var n := s.nodes[Actor(e)];
    match e
    case Local(x, input) =>
      if input.FromTun? {
        TunFacts(k, n, input.frame, input.nonce);
      }
    case Deliver(x, p, sender) =>
      if p.msg.Hi? {
        HiKeepsPeersHonest(k, s, x, p, sender);
      } else if p.msg.Query? || p.msg.Data? {
        UdpFacts(k, n, p.from, sender, p.msg);
      }
  }

  lemma HonestyKept(k: Crypto, s: Net, e: Event)
    requires Inv(k, s) && Enabled(s, e)
    ensures HonestNodes(k, Apply(k, s, e).nodes)
  {
    if Acts(e) {
      var x, st := Actor(e), StepOf(k, s, e);
      HandleFacts(k, s.nodes[x], EventInput(e));
      PeersStayHonest(k, s, e);
      var nodes := s.nodes[x := st.node];
      forall y, h | y in nodes && h in nodes[y].peers
        ensures nodes[y].peers[h].hip == h && PipOk(nodes, h, nodes[y].peers[h].pip)
      {
        assert PipOk(s.nodes, h, nodes[y].peers[h].pip);
      }
    }
  }

  /** A route that has just been stored leads to its target: its next hop is the target or already has a chain. */
  lemma NewRouteHasChain(k: Crypto, s: Net, e: Event, d: Addr)
    requires Inv(k, s) && Enabled(s, e) && Acts(e)
    requires d in StepOf(k, s, e).node.routes && d !in s.nodes[Actor(e)].routes
    ensures HasChain(Apply(k, s, e).nodes, Actor(e), d)
  {
    var x, st := Actor(e), StepOf(k, s, e);
    var nodes := Apply(k, s, e).nodes;
    HandleFacts(k, s.nodes[x], EventInput(e));
    GrowthByOne(s.nodes, x, st.node);
    var h := st.node.routes[d].nexthop;
    if h == d {
      assert Chain(nodes, x, d, 1);
    } else {
      assert TellsRoute(EventInput(e), d, h, st.node.routes[d].cost);
      var y := SenderIsBacker(k, s, x, e.packet, e.sender);
      assert HasChain(s.nodes, h, d);
      var n: nat :| Chain(s.nodes, h, d, n);
      ChainGrows(s.nodes, nodes, h, d, n);
      assert Chain(nodes, x, d, n + 1);
    }
  }

  lemma LoopFreedomKept(k: Crypto, s: Net, e: Event)
    requires Inv(k, s) && Enabled(s, e)
    ensures LoopFree(Apply(k, s, e).nodes)
  {
    if Acts(e) {
      var x, st, nodes := Actor(e), StepOf(k, s, e), Apply(k, s, e).nodes;
      HandleFacts(k, s.nodes[x], EventInput(e));
      GrowthByOne(s.nodes, x, st.node);
      forall y, d | y in nodes && d in nodes[y].routes ensures HasChain(nodes, y, d) {
        if d in s.nodes[y].routes {
          assert HasChain(s.nodes, y, d);
          var n: nat :| Chain(s.nodes, y, d, n);
          ChainGrows(s.nodes, nodes, y, d, n);
        } else {
          NewRouteHasChain(k, s, e, d);
        }
      }
    }
  }

  /** The message that a node handles in an honest run is uniform. */
  lemma InputUniform(k: Crypto, s: Net, e: Event)
    requires Inv(k, s) && Enabled(s, e) && e.Deliver?
    ensures UniformMsg(e.packet.msg)
  {
    var y := SenderIsBacker(k, s, e.to, e.packet, e.sender);
  }

  lemma StepUniform(k: Crypto, s: Net, e: Event)
    requires Inv(k, s) && Enabled(s, e) && Acts(e)
    ensures UniformNode(StepOf(k, s, e).node)
    ensures forall p <- StepOf(k, s, e).sent :: UniformMsg(p.msg)
  {
    assert UniformNode(s.nodes[Actor(e)]);
    if e.Deliver? {
      InputUniform(k, s, e);
    }
    HandleUniform(k, s.nodes[Actor(e)], EventInput(e));
  }

  lemma FlightStaysBacked(k: Crypto, s: Net, e: Event)
    requires Inv(k, s) && Enabled(s, e)
    ensures var s' := Apply(k, s, e); forall p <- s'.flight :: Backed(s'.nodes, p)
  {
    if Acts(e) {
      var s', x, st := Apply(k, s, e), Actor(e), StepOf(k, s, e);
      HandleFacts(k, s.nodes[x], EventInput(e));
      GrowthByOne(s.nodes, x, st.node);
      StepUniform(k, s, e);
      forall p | p in s'.flight ensures Backed(s'.nodes, p) {
        if p in st.sent {
          SentIsBacked(s.nodes, x, st.node, p);
        } else {
          BackingKept(s.nodes, s'.nodes, p);
        }
      }
    }
  }

  lemma InvKept(k: Crypto, s: Net, e: Event)
    requires Inv(k, s) && Enabled(s, e)
    ensures Inv(k, Apply(k, s, e))
  {
    HonestyKept(k, s, e);
    LoopFreedomKept(k, s, e);
    FlightStaysBacked(k, s, e);
    if Acts(e) {
      StepUniform(k, s, e);
    }
  }

  lemma {:induction false} InvAlways(k: Crypto, s: Net, run: seq<Event>)
    requires Inv(k, s) && Legal(k, s, run)
    ensures Inv(k, Run(k, s, run))
    decreases |run|
  {
    if run != [] {
      InvKept(k, s, run[0]);
      InvAlways(k, Apply(k, s, run[0]), run[1..]);
    }
  }

  // ---------------------------------------------------------------- what every reachable state satisfies

  /** In every reachable state, from every node that stores a route to `d`, the next hops lead to `d`. */
  lemma RoutesNeverLoop(k: Crypto, s: Net, run: seq<Event>)
    requires Initial(k, s) && Legal(k, s, run)
    ensures LoopFree(Run(k, s, run).nodes)
  {
    InvAlways(k, s, run);
  }

  /** Every query in flight asks with TTL 5 and every stored route costs 1, whatever the distance. */
  lemma EveryQueryAsksAtFive(k: Crypto, s: Net, run: seq<Event>)
    requires Initial(k, s) && Legal(k, s, run)
    ensures var s' := Run(k, s, run);
            && (forall p <- s'.flight | p.msg.Query? :: p.msg.ttl == 5)
            && (forall x <- s'.nodes, d <- s'.nodes[x].search :: s'.nodes[x].search[d].ttlShouldUse == 5)
            && (forall x <- s'.nodes, d <- s'.nodes[x].routes :: s'.nodes[x].routes[d].cost == 1)
  {
    InvAlways(k, s, run);
    var s' := Run(k, s, run);
    forall p | p in s'.flight && p.msg.Query? ensures p.msg.ttl == 5 {
      assert Backed(s'.nodes, p);
    }
    forall x, d | x in s'.nodes && d in s'.nodes[x].search ensures s'.nodes[x].search[d].ttlShouldUse == 5 {
      assert UniformNode(s'.nodes[x]);
    }
    forall x, d | x in s'.nodes && d in s'.nodes[x].routes ensures s'.nodes[x].routes[d].cost == 1 {
      assert UniformNode(s'.nodes[x]);
    }
  }
}
