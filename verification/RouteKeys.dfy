/** The key that comes with a route is the key of the route's destination, at every node of every reachable state. */
module RouteKeys {
  import opened Basics
  import opened NodeModel
  import opened NodeFacts
  import opened Network
  import opened Effects

  /** Every stored route carries a key that hashes to its destination. */
  ghost predicate RoutesKeyed(k: Crypto, n: Node) {
    forall d <- n.routes :: k.hipOf(n.routes[d].pubkey) == d
  }

  predicate ReplyKeyed(k: Crypto, m: Msg) {
    m.Reply? ==> k.hipOf(m.pubkey) == m.rgoal
  }

  ghost predicate Keyed(k: Crypto, s: Net) {
    && (forall x <- s.nodes :: TablesOk(k, s.nodes[x]) && RoutesKeyed(k, s.nodes[x]))
    && (forall p <- s.flight :: ReplyKeyed(k, p.msg))
  }

  ghost predicate KeyedStep(k: Crypto, st: Step) {
    RoutesKeyed(k, st.node) && forall p <- st.sent :: ReplyKeyed(k, p.msg)
  }

  lemma ForwardKeyed(k: Crypto, n: Node, src: Addr, dst: Addr, reason: Reason, ttl: int, nonce: Octets24, blob: Bytes)
    requires RoutesKeyed(k, n) && ttl < 256
    ensures KeyedStep(k, Forwarded(RouteTop(n, src, dst, reason, ttl, nonce, blob)))
  {
    ForwardFacts(n, src, dst, dst, reason, 0, ttl, nonce, blob);
    DetailKeepsRoutes(n, src, dst, dst, reason, 0, ttl, nonce, blob);
    hide RouteDetail;
  }

  lemma QueryKeyed(k: Crypto, n: Node, sender: Addr, goal: Addr, ttl: Byte)
    requires TablesOk(k, n) && RoutesKeyed(k, n)
    ensures KeyedStep(k, HandleQuery(n, sender, goal, ttl))
  {
    hide HandleQuery;
    if Asking(ttl) && sender in n.peers && CanAnswer(n, goal) {
      QueryAnswered(n, sender, goal, ttl);
    } else {
      QueryNotAnswered(n, sender, goal, ttl);
      QueryKeepsRoutes(n, sender, goal, ttl);
    }
  }

  lemma QueryKeepsRoutes(n: Node, sender: Addr, goal: Addr, ttl: Byte)
    requires !(Asking(ttl) && sender in n.peers && CanAnswer(n, goal))
    ensures HandleQuery(n, sender, goal, ttl).node.routes == n.routes
  {}

  lemma UdpKeyed(k: Crypto, n: Node, from: Pip, sender: Option<Addr>, msg: Msg)
    requires TablesOk(k, n) && RoutesKeyed(k, n) && ReplyKeyed(k, msg)
    ensures KeyedStep(k, HandleUdp(k, n, from, sender, msg))
  {
    hide HandleQuery, HandleReply, HandleHi, RouteTop;
    match msg
    case Hi(cred) =>
      if k.verifies(cred) {
        HiAccepted(k, n, from, cred);
      } else {
        ForgedHiRefused(k, n, from, cred);
      }
    case Query(goal, ttl) =>
      if sender.Some? {
        QueryKeyed(k, n, sender.value, goal, ttl);
      }
    case Reply(ttl, cost, goal, pk) =>
      if sender.Some? {
        ReplyTeaches(k, n, sender.value, ttl, cost, goal, pk);
      }
    case Data(src, dst, ttl, nonce, blob) =>
      ForwardKeyed(k, n, dst, src, Reason(ZERO_ADDR, RouteOwnPacket), ttl, k.dummyNonce, []);
      ForwardKeyed(k, n, src, dst, Reason(src, RouteOtherPacket), ClampTtl(ttl), nonce, blob);
  }

  lemma HandleKeyed(k: Crypto, n: Node, input: Input)
    requires TablesOk(k, n) && RoutesKeyed(k, n) && (input.FromUdp? ==> ReplyKeyed(k, input.msg))
    ensures KeyedStep(k, Handle(k, n, input))
  {
    hide HandleUdp, RouteTop;
    match input
    case FromTun(frame, nonce) =>
      if |frame| >= 44 {
        var src, dst, reason := FrameSource(frame), FrameDestination(frame), Reason(ZERO_ADDR, RouteOwnPacket);
        ForwardKeyed(k, n, src, dst, reason, DATA_ROUTE_TTL, k.dummyNonce, []);
        if dst in n.tunnels {
          ForwardKeyed(k, n, src, dst, reason, DATA_ROUTE_TTL, nonce, k.box(n.tunnels[dst], nonce, Cleartext(frame)));
        }
      }
    case FromUdp(from, sender, msg) => UdpKeyed(k, n, from, sender, msg);
    case PingAll => PingReachesAll(k, n);
    case _ =>
  }

  lemma KeyedKept(k: Crypto, s: Net, e: Event)
    requires Keyed(k, s) && Enabled(s, e)
    ensures Keyed(k, Apply(k, s, e))
  {
    hide Handle, TablesOk, RoutesKeyed;
    if Acts(e) {
      HandleKeyed(k, s.nodes[Actor(e)], EventInput(e));
      TablesKept(k, s.nodes[Actor(e)], EventInput(e));
    }
  }

  /** In every reachable state every stored route and every reply in flight carries the key of the destination itself. */
  lemma {:induction false} KeysAlwaysMatch(k: Crypto, s: Net, run: seq<Event>)
    requires Keyed(k, s) && Legal(k, s, run)
    ensures Keyed(k, Run(k, s, run))
    decreases |run|
  {
    hide Keyed;
    if run != [] {
      KeyedKept(k, s, run[0]);
      KeysAlwaysMatch(k, Apply(k, s, run[0]), run[1..]);
    }
  }

  lemma KeysMatchFromTheStart(k: Crypto, s: Net, run: seq<Event>)
    requires Initial(k, s) && Legal(k, s, run) && forall x <- s.nodes :: TablesOk(k, s.nodes[x])
    ensures var s' := Run(k, s, run);
            && (forall x <- s'.nodes, d <- s'.nodes[x].routes :: k.hipOf(s'.nodes[x].routes[d].pubkey) == d)
            && (forall p <- s'.flight | p.msg.Reply? :: k.hipOf(p.msg.pubkey) == p.msg.rgoal)
  {
    KeysAlwaysMatch(k, s, run);
    var s' := Run(k, s, run);
    forall x, d | x in s'.nodes && d in s'.nodes[x].routes ensures k.hipOf(s'.nodes[x].routes[d].pubkey) == d {
      assert RoutesKeyed(k, s'.nodes[x]);
    }
  }
}
