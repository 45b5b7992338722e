/** How far data travels: the exact condition under which a packet from TUN arrives. */
module ForwardingPath {
  import opened Basics
  import opened NodeModel
  import opened NodeFacts
  import opened Network
  import opened LoopFreedom
  import opened Delivery

  /** The peer a node hands data for `d` to: `d` itself when it is a peer, else the stored next hop. */
  function FirstHop(n: Node, d: Addr): Option<Addr> {
    if d in n.peers then Some(d)
    else if d in n.routes then Some(n.routes[d].nexthop)
    else None
  }

  /** Data for `d` leaves `x` and makes exactly `n` sends, each to a node that recognises the sender, the last to `d`. */
  ghost predicate Path(nodes: Nodes, x: Addr, d: Addr, n: nat)
    decreases n
  {
    && n >= 1 && x in nodes
    && match FirstHop(nodes[x], d)
       case None => false
       case Some(h) => Knows(nodes, h, x) && if h == d then n == 1 else n > 1 && Path(nodes, h, d, n - 1)
  }

  /** A stored next hop that is a peer is where forwarding leads. */
  lemma FirstHopIsNext(n: Node, d: Addr)
    requires d in n.routes ==> n.routes[d].nexthop in n.peers
    ensures NextHop(n, d) == FirstHop(n, d)
  {}

  ghost predicate PathWithin(nodes: Nodes, x: Addr, d: Addr, most: int) {
    exists n: nat :: n <= most && Path(nodes, x, d, n)
  }

  lemma PathWithinStep(nodes: Nodes, x: Addr, d: Addr, ttl: nat)
    requires x in nodes && ttl > 0
    ensures PathWithin(nodes, x, d, ttl) <==>
            var hop := FirstHop(nodes[x], d);
            && hop.Some? && Knows(nodes, hop.value, x)
            && (hop.value == d || PathWithin(nodes, hop.value, d, ttl - 1))
  {
    var hop := FirstHop(nodes[x], d);
    if PathWithin(nodes, x, d, ttl) {
      var n: nat :| n <= ttl && Path(nodes, x, d, n);
      assert hop.value != d ==> Path(nodes, hop.value, d, n - 1);
    }
    if hop.Some? && Knows(nodes, hop.value, x) {
      if hop.value == d {
        assert Path(nodes, x, d, 1);
      } else if PathWithin(nodes, hop.value, d, ttl - 1) {
        var n: nat :| n <= ttl - 1 && Path(nodes, hop.value, d, n);
        assert Path(nodes, x, d, n + 1);
      }
    }
  }

  /** The first node on the chain that lists `d` as a peer, and so hands the data to `d` directly. */
  ghost function Gate(nodes: Nodes, x: Addr, d: Addr, n: nat): Addr
    requires Chain(nodes, x, d, n)
    decreases n
  {
    var h := nodes[x].routes[d].nexthop;
    if d in nodes[x].peers || h == d then x else Gate(nodes, h, d, n - 1)
  }

  /** The forwarding path is never longer than the chain of stored next hops, and exists exactly when `d` knows its gate. */
  lemma {:induction false} PathWithinChain(k: Crypto, s: Net, x: Addr, d: Addr, n: nat)
    requires Acquainted(k, s) && Chain(s.nodes, x, d, n)
    ensures PathWithin(s.nodes, x, d, n) <==> Knows(s.nodes, d, Gate(s.nodes, x, d, n))
    decreases n
  {
    hide Acquainted;
    HopsOf(k, s, x, d);
    PathWithinStep(s.nodes, x, d, n);
    if d !in s.nodes[x].peers {
      PathWithinChain(k, s, s.nodes[x].routes[d].nexthop, d, n - 1);
    }
  }

  lemma HopsOf(k: Crypto, s: Net, x: Addr, d: Addr)
    requires Acquainted(k, s) && x in s.nodes && d in s.nodes[x].routes
    ensures HopKnown(s.nodes, x, d)
  {}

  /** Once the handshake with `d` is complete everywhere, every stored route to `d` gives a path within its chain. */
  lemma ConfirmedGivesPath(k: Crypto, s: Net, x: Addr, d: Addr, n: nat)
    requires Acquainted(k, s) && Confirmed(s.nodes, d) && Chain(s.nodes, x, d, n)
    ensures PathWithin(s.nodes, x, d, n)
  {
    GateListsTarget(k, s, x, d, n);
    PathWithinChain(k, s, x, d, n);
  }

  lemma {:induction false} GateListsTarget(k: Crypto, s: Net, x: Addr, d: Addr, n: nat)
    requires Acquainted(k, s) && Chain(s.nodes, x, d, n)
    ensures var g := Gate(s.nodes, x, d, n); g in s.nodes && d in s.nodes[g].peers
    decreases n
  {
    hide Acquainted;
    HopsOf(k, s, x, d);
    if d !in s.nodes[x].peers {
      GateListsTarget(k, s, s.nodes[x].routes[d].nexthop, d, n - 1);
    }
  }

  lemma {:induction false} PathIsUnique(nodes: Nodes, x: Addr, d: Addr, m: nat, n: nat)
    requires Path(nodes, x, d, m) && Path(nodes, x, d, n)
    ensures m == n
    decreases m
  {
    var h := FirstHop(nodes[x], d).value;
    if h != d {
      PathIsUnique(nodes, h, d, m - 1, n - 1);
    }
  }

  // ---------------------------------------------------------------- while the rest of the network goes on

  /** Unless a user adds it, a new peer has said `public_hi`, and says it only to nodes it knows. */
  lemma NewPeerIsKnown(k: Crypto, s: Net, e: Event, y: Addr, d: Addr)
    requires Acquainted(k, s) && Enabled(s, e) && NoPeerOps(e, d)
    requires y in s.nodes && d !in s.nodes[y].peers && d in Apply(k, s, e).nodes[y].peers
    ensures Knows(s.nodes, d, y)
  {
    assert Acts(e) && y == Actor(e);
    PeersOnlyGrow(k, s.nodes[y], EventInput(e));
    var z := ReceiverIsKnown(k, s, e);
  }

  lemma ConfirmedKept(k: Crypto, s: Net, e: Event, d: Addr)
    requires Acquainted(k, s) && Enabled(s, e) && NoPeerOps(e, d) && Confirmed(s.nodes, d)
    ensures Confirmed(Apply(k, s, e).nodes, d)
  {
    var nodes := Apply(k, s, e).nodes;
    GrowthOf(k, s, e);
    forall y | y in nodes && d in nodes[y].peers ensures Knows(nodes, d, y) {
      if d !in s.nodes[y].peers {
        NewPeerIsKnown(k, s, e, y, d);
      }
      KnowsKept(s.nodes, nodes, d, y);
    }
  }

  /** Whatever else happens, the path of a packet under way can only get shorter. */
  lemma {:induction false} PathShrinks(a: Nodes, b: Nodes, x: Addr, d: Addr, n: nat) returns (m: nat)
    requires AllGrow(a, b) && AllKeepPeers(a, b) && Confirmed(b, d) && Path(a, x, d, n)
    ensures 1 <= m <= n && Path(b, x, d, m)
    decreases n
  {
    var h := FirstHop(a[x], d).value;
    assert x in b && Grows(a[x], b[x]);
    KnowsKept(a, b, h, x);
    if d in b[x].peers || h == d {
      m := 1;
    } else {
      m := PathShrinks(a, b, h, d, n - 1);
      m := m + 1;
    }
  }

  /** The datagram is data for `d`, its receiver recognises its sender, and has a path that its TTL covers. */
  ghost predicate OnTheWayTo(nodes: Nodes, p: Packet, z: Addr, y: Addr) {
    && p.msg.Data? && p.msg.dttl <= 5
    && z in nodes && nodes[z].pip == p.to
    && y in nodes && nodes[y].pip == p.from && Knows(nodes, z, y)
    && (z == p.msg.dst || exists n: nat :: n < p.msg.dttl && Path(nodes, z, p.msg.dst, n))
  }

  ghost predicate OnTheWay(nodes: Nodes, p: Packet) {
    exists z, y :: OnTheWayTo(nodes, p, z, y)
  }

  /** The same data, whatever its TTL and its current leg. */
  predicate SamePayload(m: Msg, m': Msg) {
    m.Data? && m'.Data? && m.(dttl := 0) == m'.(dttl := 0)
  }

  lemma StaysOnTheWay(k: Crypto, s: Net, e: Event, p: Packet)
    requires Acquainted(k, s) && Enabled(s, e) && p.msg.Data? && NoPeerOps(e, p.msg.dst)
    requires OnTheWay(s.nodes, p) && Confirmed(s.nodes, p.msg.dst)
    ensures OnTheWay(Apply(k, s, e).nodes, p)
  {
    var nodes := Apply(k, s, e).nodes;
    GrowthOf(k, s, e);
    ConfirmedKept(k, s, e, p.msg.dst);
    var z, y :| OnTheWayTo(s.nodes, p, z, y);
    assert SameIdentity(s.nodes[z], nodes[z]) && SameIdentity(s.nodes[y], nodes[y]);
    KnowsKept(s.nodes, nodes, z, y);
    if z != p.msg.dst {
      var n: nat :| n < p.msg.dttl && Path(s.nodes, z, p.msg.dst, n);
      var m := PathShrinks(s.nodes, nodes, z, p.msg.dst, n);
      assert m < p.msg.dttl && Path(nodes, z, p.msg.dst, m);
    }
    assert OnTheWayTo(nodes, p, z, y);
  }

  /** The sender of a datagram under way is recognised where it arrives. */
  lemma ArrivalIsRecognised(k: Crypto, s: Net, p: Packet, z: Addr, y: Addr, e: Event)
    requires Acquainted(k, s) && Enabled(s, e) && e.Deliver? && e.packet == p && OnTheWayTo(s.nodes, p, z, y)
    ensures e.to == z && s.nodes[z].me == z && e.sender.Some?
  {
    assert PipOk(s.nodes, y, s.nodes[z].peers[y].pip);
    assert s.nodes[z].peers[y].pip == p.from;
  }

  lemma SenderRecognised(k: Crypto, s: Net, e: Event)
    requires Acquainted(k, s) && Enabled(s, e) && e.Deliver? && OnTheWay(s.nodes, e.packet)
    ensures e.sender.Some?
  {
    hide Acquainted;
    var z, y :| OnTheWayTo(s.nodes, e.packet, z, y);
    ArrivalIsRecognised(k, s, e.packet, z, y, e);
  }

  /** Data whose path its TTL covers is handed on, with a TTL that covers the rest of the path. */
  lemma HandedOn(k: Crypto, s: Net, z: Addr, src: Addr, d: Addr, reason: Reason, ttl: nat, n: nat, nonce: Octets24, blob: Bytes)
    returns (q: Packet)
    requires Acquainted(k, s) && Path(s.nodes, z, d, n) && n <= ttl <= 5
    ensures var f := RouteTop(s.nodes[z], src, d, reason, ttl, nonce, blob);
            f.node == s.nodes[z] && f.sent == multiset{q}
    ensures q.msg == Data(src, d, ttl, nonce, blob) && OnTheWay(s.nodes, q)
  {
    var node := s.nodes[z];
    assert d in node.routes ==> HopKnown(s.nodes, z, d);
    ForwardChoice(node, src, d, reason, ttl, nonce, blob);
    FirstHopIsNext(node, d);
    ForwardFacts(node, src, d, d, reason, 0, ttl, nonce, blob);
    var h := FirstHop(node, d).value;
    q := Packet(node.pip, h, node.peers[h].pip, Data(src, d, ttl, nonce, blob));
    assert PipOk(s.nodes, h, node.peers[h].pip);
    assert h != d ==> n - 1 < ttl && Path(s.nodes, h, d, n - 1);
    assert OnTheWayTo(s.nodes, q, h, z);
  }

  /** Data for somebody else is forwarded by whoever recognises its sender. */
  lemma RelayStep(k: Crypto, n: Node, from: Pip, h: Addr, m: Msg)
    requires m.Data? && m.dst != n.me
    ensures HandleUdp(k, n, from, Some(h), m)
            == Forwarded(RouteTop(n, m.src, m.dst, Reason(m.src, RouteOtherPacket), ClampTtl(m.dttl), m.nonce, m.blob))
  {}

  /** A step that changes no node and sends one datagram puts it in flight. */
  lemma SentAlone(k: Crypto, s: Net, e: Event, q: Packet)
    requires Enabled(s, e) && Acts(e)
    requires StepOf(k, s, e).node == s.nodes[Actor(e)] && StepOf(k, s, e).sent == multiset{q}
    ensures Apply(k, s, e).nodes == s.nodes && q in Apply(k, s, e).flight
  {}

  /** A packet under way that is delivered has arrived, or is under way again with a smaller TTL. */
  lemma NextLeg(k: Crypto, s: Net, e: Event) returns (q: Packet)
    requires Acquainted(k, s) && Enabled(s, e) && e.Deliver? && OnTheWay(s.nodes, e.packet)
    requires e.to != e.packet.msg.dst
    ensures q in Apply(k, s, e).flight && OnTheWay(Apply(k, s, e).nodes, q)
    ensures SamePayload(q.msg, e.packet.msg) && q.msg.dttl < e.packet.msg.dttl
  {
    hide RouteTop, HandleUdp, Acquainted;
    var p, m := e.packet, e.packet.msg;
    var z, y :| OnTheWayTo(s.nodes, p, z, y);
    ArrivalIsRecognised(k, s, p, z, y, e);
    var n: nat :| n < m.dttl && Path(s.nodes, z, m.dst, n);
    q := HandedOn(k, s, z, m.src, m.dst, Reason(m.src, RouteOtherPacket), m.dttl - 1, n, m.nonce, m.blob);
    RelayStep(k, s.nodes[z], p.from, e.sender.value, m);
    SentAlone(k, s, e, q);
  }

  /** Data whose path has at most five sends is under way as soon as it is read from TUN. */
  lemma Launched(k: Crypto, s: Net, a: Addr, frame: Bytes, nonce: Octets24, n: nat) returns (q: Packet)
    requires Acquainted(k, s) && a in s.nodes && |frame| >= 44 && frame[28] == 0xFD
    requires n <= 5 && Path(s.nodes, a, FrameDestination(frame), n)
    ensures var s' := Apply(k, s, Local(a, FromTun(frame, nonce)));
            q in s'.flight && OnTheWay(s'.nodes, q)
    ensures q.msg.src == FrameSource(frame) && q.msg.dst == FrameDestination(frame) && q.msg.dttl == 5
  {
    hide RouteTop, Acquainted;
    var src, dst, reason := FrameSource(frame), FrameDestination(frame), Reason(ZERO_ADDR, RouteOwnPacket);
    var node, e := s.nodes[a], Local(a, FromTun(frame, nonce));
    if dst in node.tunnels {
      q := HandedOn(k, s, a, src, dst, reason, 5, n, nonce, k.box(node.tunnels[dst], nonce, Cleartext(frame)));
    } else {
      q := HandedOn(k, s, a, src, dst, reason, 5, n, k.dummyNonce, []);
    }
    SentAlone(k, s, e, q);
  }

  /** Some event of the run hands the data to its destination, which recognises the sender. */
  ghost predicate Delivered(run: seq<Event>, m: Msg) {
    m.Data? && exists e <- run :: e.Deliver? && e.to == m.dst && e.sender.Some? && SamePayload(e.packet.msg, m)
  }

  ghost predicate Underway(s: Net, m: Msg) {
    exists q <- s.flight :: SamePayload(q.msg, m) && OnTheWay(s.nodes, q)
  }

  /** One event, other than its loss, delivers the data or leaves a copy of it under way. */
  lemma NotDroppedNow(k: Crypto, s: Net, e: Event, m: Msg)
    requires Acquainted(k, s) && Enabled(s, e) && m.Data? && NoPeerOps(e, m.dst)
    requires Confirmed(s.nodes, m.dst) && Underway(s, m)
    requires !(e.Lose? && SamePayload(e.lost.msg, m))
    ensures Delivered([e], m) || Underway(Apply(k, s, e), m)
  {
    hide Handle, Acquainted, OnTheWay, Confirmed;
    var p :| p in s.flight && SamePayload(p.msg, m) && OnTheWay(s.nodes, p);
    if e.Deliver? && e.packet == p {
      if e.to == m.dst {
        SenderRecognised(k, s, e);
        assert e in [e];
      } else {
        var q := NextLeg(k, s, e);
        assert SamePayload(q.msg, m);
      }
    } else {
      StaysOnTheWay(k, s, e, p);
      assert p in Apply(k, s, e).flight;
    }
  }

  /** No node ever drops a packet under way: after any run it has been delivered, or a copy is still under way. */
  lemma {:induction false} NeverDropped(k: Crypto, s: Net, run: seq<Event>, m: Msg)
    requires Acquainted(k, s) && Legal(k, s, run) && m.Data? && Confirmed(s.nodes, m.dst) && Underway(s, m)
    requires forall e <- run :: NoPeerOps(e, m.dst) && !(e.Lose? && SamePayload(e.lost.msg, m))
    ensures Delivered(run, m) || Underway(Run(k, s, run), m)
    decreases |run|
  {
    if run != [] {
      var e := run[0];
      NotDroppedNow(k, s, e, m);
      if Underway(Apply(k, s, e), m) {
        AcquaintedKept(k, s, e);
        ConfirmedKept(k, s, e, m.dst);
        NeverDropped(k, Apply(k, s, e), run[1..], m);
      }
    }
  }
}
