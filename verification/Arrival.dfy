/** The exact condition under which data arrives, over the deliveries of its own copies. */
module Arrival {
  import opened Basics
  import opened NodeModel
  import opened NodeFacts
  import opened Network
  import opened LoopFreedom
  import opened Delivery
  import opened ForwardingPath

  /** Nothing happens but that copies of the data are delivered, and that datagrams are lost or duplicated. */
  ghost predicate CopiesOnly(run: seq<Event>, m: Msg) {
    forall e <- run :: !e.Local? && (e.Deliver? ==> SamePayload(e.packet.msg, m))
  }

  /** In this run the data reaches its destination, which recognises the sender. */
  ghost predicate Arrives(k: Crypto, s: Net, run: seq<Event>, m: Msg) {
    CopiesOnly(run, m) && Legal(k, s, run) && Delivered(run, m)
  }

  /** The node `y` has sent the data to the first hop of its tables. */
  ghost predicate SentBy(nodes: Nodes, q: Packet, y: Addr) {
    && q.msg.Data? && y in nodes && q.from == nodes[y].pip
    && FirstHop(nodes[y], q.msg.dst) == Some(q.entry)
    && q.entry in nodes[y].peers && q.to == nodes[y].peers[q.entry].pip
  }

  // ---------------------------------------------------------------- forwarding leaves the tables alone

  ghost predicate SameTables(a: Nodes, b: Nodes) {
    && a.Keys == b.Keys
    && forall x <- a :: SameIdentity(a[x], b[x]) && a[x].peers == b[x].peers && a[x].routes == b[x].routes
  }

  /** Forwarding at a node of these tables sends the data to its first hop, or nowhere, and keeps peers and routes. */
  lemma ForwardedTo(nodes: Nodes, n: Node, y: Addr, src: Addr, d: Addr, reason: Reason, ttl: int, nonce: Octets24, blob: Bytes)
    requires y in nodes && SameIdentity(nodes[y], n) && nodes[y].peers == n.peers && nodes[y].routes == n.routes
    requires (d in n.routes ==> n.routes[d].nexthop in n.peers) && ttl < 256
    ensures var f := RouteTop(n, src, d, reason, ttl, nonce, blob);
            && SameIdentity(n, f.node) && f.node.peers == n.peers && f.node.routes == n.routes
            && (forall q <- f.sent :: q.msg.Query? || (ttl > 0 && q.msg == Data(src, d, ttl, nonce, blob) && SentBy(nodes, q, y)))
            && (ttl > 0 && FirstHop(n, d).Some? ==> exists q :: f.sent == multiset{q} && q.msg == Data(src, d, ttl, nonce, blob))
  {
    ForwardFacts(n, src, d, d, reason, 0, ttl, nonce, blob);
    DetailKeepsRoutes(n, src, d, d, reason, 0, ttl, nonce, blob);
    ForwardChoice(n, src, d, reason, ttl, nonce, blob);
    FirstHopIsNext(n, d);
    hide RouteDetail;
    var f := RouteTop(n, src, d, reason, ttl, nonce, blob);
    if f.chosen.Some? {
      var h := f.chosen.value;
      assert f.sent == multiset{Packet(n.pip, h, n.peers[h].pip, Data(src, d, ttl, nonce, blob))};
    }
  }

  lemma {:induction false} SamePath(a: Nodes, b: Nodes, x: Addr, d: Addr, n: nat)
    requires SameTables(a, b) && Path(a, x, d, n)
    ensures Path(b, x, d, n)
    decreases n
  {
    var h := FirstHop(a[x], d).value;
    assert x in b && h in b;
    if h != d {
      SamePath(a, b, h, d, n - 1);
    }
  }

  // ---------------------------------------------------------------- no arrival without a path

  /** If the rest of the way is a path that the TTL covers, the data has a path from where it began. */
  ghost predicate TrailFrom(nodes: Nodes, q: Packet, y: Addr, begun: bool) {
    && SentBy(nodes, q, y) && 0 < q.msg.dttl <= 5
    && (PathWithin(nodes, y, q.msg.dst, q.msg.dttl) ==> begun)
  }

  ghost predicate Trail(nodes: Nodes, q: Packet, begun: bool) {
    exists y :: TrailFrom(nodes, q, y, begun)
  }

  ghost predicate Trails(nodes: Nodes, flight: multiset<Packet>, m: Msg, begun: bool) {
    forall q <- flight :: SamePayload(q.msg, m) ==> Trail(nodes, q, begun)
  }

  /** A delivery is at the first hop of the sender, and whom the receiver recognises is the sender. */
  lemma LegEnds(k: Crypto, base: Net, s: Net, e: Event, y: Addr)
    requires HonestNodes(k, base.nodes) && SameTables(base.nodes, s.nodes) && Enabled(s, e) && e.Deliver?
    requires SentBy(base.nodes, e.packet, y)
    ensures e.to == e.packet.entry && s.nodes[e.to].me == e.to
    ensures e.sender.Some? ==> e.sender.value == y && Knows(base.nodes, e.to, y)
  {
    var p := e.packet;
    assert PipOk(base.nodes, p.entry, base.nodes[y].peers[p.entry].pip);
    assert e.to in base.nodes && SameIdentity(base.nodes[e.to], s.nodes[e.to]);
    if e.sender.Some? {
      assert PipOk(base.nodes, e.sender.value, base.nodes[e.to].peers[e.sender.value].pip);
    }
  }

  lemma ArrivalGivesPath(k: Crypto, base: Net, s: Net, e: Event, begun: bool)
    requires HonestNodes(k, base.nodes) && SameTables(base.nodes, s.nodes) && Enabled(s, e) && e.Deliver?
    requires e.packet.msg.Data? && Trail(base.nodes, e.packet, begun) && e.to == e.packet.msg.dst && e.sender.Some?
    ensures begun
  {
    var y :| TrailFrom(base.nodes, e.packet, y, begun);
    LegEnds(k, base, s, e, y);
    assert Path(base.nodes, y, e.to, 1);
  }

  /** What a relay with these tables sends on has a trail again. */
  lemma RelayedTrails(k: Crypto, nodes: Nodes, n: Node, z: Addr, y: Addr, p: Packet, h: Addr, begun: bool)
    requires TrailFrom(nodes, p, y, begun) && Knows(nodes, z, y) && p.entry == z
    requires SameIdentity(nodes[z], n) && nodes[z].peers == n.peers && nodes[z].routes == n.routes
    requires n.me != p.msg.dst && z != p.msg.dst
    requires p.msg.dst in n.routes ==> n.routes[p.msg.dst].nexthop in n.peers
    ensures var st := HandleUdp(k, n, p.from, Some(h), p.msg);
            && SameIdentity(n, st.node) && st.node.peers == n.peers && st.node.routes == n.routes
            && Trails(nodes, st.sent, p.msg, begun)
  {
    var m, ttl := p.msg, ClampTtl(p.msg.dttl);
    RelayStep(k, n, p.from, h, m);
    hide HandleUdp, RouteTop, PathWithin;
    ForwardedTo(nodes, n, z, m.src, m.dst, Reason(m.src, RouteOtherPacket), ttl, m.nonce, m.blob);
    PathWithinStep(nodes, y, m.dst, m.dttl);
    var sent := RouteTop(n, m.src, m.dst, Reason(m.src, RouteOtherPacket), ttl, m.nonce, m.blob).sent;
    forall q | q in sent && SamePayload(q.msg, m) ensures Trail(nodes, q, begun) {
      assert TrailFrom(nodes, q, z, begun);
    }
  }

  /** A relay leaves the tables as they are, and what it sends on has a trail again. */
  lemma RelayKeepsTrail(k: Crypto, base: Net, s: Net, e: Event, begun: bool)
    requires Acquainted(k, base) && SameTables(base.nodes, s.nodes) && Enabled(s, e) && e.Deliver?
    requires e.packet.msg.Data? && Trail(base.nodes, e.packet, begun) && (e.to == e.packet.msg.dst ==> e.sender.None?)
    ensures SameTables(base.nodes, Apply(k, s, e).nodes)
    ensures Trails(base.nodes, StepOf(k, s, e).sent, e.packet.msg, begun)
  {
    hide Handle, HandleUdp, TrailFrom, Inv;
    var p := e.packet;
    var y :| TrailFrom(base.nodes, p, y, begun);
    HonestOf(k, base);
    LegOf(k, base, s, e, y, begun);
    DeliveredStep(k, s, e);
    if e.sender.Some? {
      assert p.msg.dst in base.nodes[e.to].routes ==> HopKnown(base.nodes, e.to, p.msg.dst);
      hide Acquainted;
      RelayedTrails(k, base.nodes, s.nodes[e.to], e.to, y, p, e.sender.value, begun);
    } else {
      DroppedData(k, s.nodes[e.to], p.from, p.msg);
    }
    TablesAfter(k, base.nodes, s, e);
  }

  lemma LegOf(k: Crypto, base: Net, s: Net, e: Event, y: Addr, begun: bool)
    requires HonestNodes(k, base.nodes) && SameTables(base.nodes, s.nodes) && Enabled(s, e) && e.Deliver?
    requires TrailFrom(base.nodes, e.packet, y, begun)
    ensures e.to == e.packet.entry && s.nodes[e.to].me == e.to
    ensures e.sender.Some? ==> e.sender.value == y && Knows(base.nodes, e.to, y)
  {
    LegEnds(k, base, s, e, y);
  }

  lemma DeliveredStep(k: Crypto, s: Net, e: Event)
    requires Enabled(s, e) && e.Deliver?
    ensures StepOf(k, s, e) == HandleUdp(k, s.nodes[e.to], e.packet.from, e.sender, e.packet.msg)
  {
    hide HandleUdp;
  }

  lemma DroppedData(k: Crypto, n: Node, from: Pip, m: Msg)
    requires m.Data?
    ensures HandleUdp(k, n, from, None, m) == Step(n, multiset{}, [])
  {}

  lemma TablesAfter(k: Crypto, nodes: Nodes, s: Net, e: Event)
    requires SameTables(nodes, s.nodes) && Enabled(s, e) && Acts(e)
    requires var n, n' := s.nodes[Actor(e)], StepOf(k, s, e).node;
             SameIdentity(n, n') && n'.peers == n.peers && n'.routes == n.routes
    ensures SameTables(nodes, Apply(k, s, e).nodes)
  {
    hide Handle;
  }

  lemma {:induction false} NoArrivalWithoutPath(k: Crypto, base: Net, s: Net, run: seq<Event>, m: Msg, begun: bool)
    requires Acquainted(k, base) && SameTables(base.nodes, s.nodes) && m.Data? && Trails(base.nodes, s.flight, m, begun)
    requires Arrives(k, s, run, m)
    ensures begun
    decreases |run|
  {
    hide Handle, Trail, SameTables, Acquainted;
    var e := run[0];
    assert e in run;
    if e.Deliver? && e.to == m.dst && e.sender.Some? {
      HonestOf(k, base);
      ArrivalGivesPath(k, base, s, e, begun);
    } else {
      if e.Deliver? {
        RelayKeepsTrail(k, base, s, e, begun);
        PayloadTrails(base.nodes, StepOf(k, s, e).sent, e.packet.msg, m, begun);
      }
      assert Delivered(run[1..], m) by {
        var a :| a in run && a.Deliver? && a.to == m.dst && a.sender.Some? && SamePayload(a.packet.msg, m);
        assert a in run[1..];
      }
      NoArrivalWithoutPath(k, base, Apply(k, s, e), run[1..], m, begun);
    }
  }

  lemma HonestOf(k: Crypto, s: Net)
    requires Acquainted(k, s)
    ensures HonestNodes(k, s.nodes)
  {}

  lemma PayloadTrails(nodes: Nodes, flight: multiset<Packet>, m: Msg, m': Msg, begun: bool)
    requires SamePayload(m, m') && Trails(nodes, flight, m, begun)
    ensures Trails(nodes, flight, m', begun)
  {
    forall q | q in flight && SamePayload(q.msg, m') ensures Trail(nodes, q, begun) {
      assert SamePayload(q.msg, m);
    }
  }

  // ---------------------------------------------------------------- every path is travelled

  /** Data under way reaches its destination in some run of deliveries. */
  lemma {:induction false} SomeRunDelivers(k: Crypto, s: Net, p: Packet) returns (run: seq<Event>)
    requires Acquainted(k, s) && p in s.flight && p.msg.Data? && OnTheWay(s.nodes, p)
    ensures Arrives(k, s, run, p.msg)
    decreases p.msg.dttl
  {
    hide Handle, Acquainted, OnTheWay;
    var e := ArrivalEvent(k, s, p);
    if e.to == p.msg.dst {
      run := [e];
      LastLeg(k, s, e);
    } else {
      var q := NextLeg(k, s, e);
      AcquaintedKept(k, s, e);
      var rest := SomeRunDelivers(k, Apply(k, s, e), q);
      run := [e] + rest;
      OneMoreLeg(k, s, e, rest, q.msg);
    }
  }

  lemma LastLeg(k: Crypto, s: Net, e: Event)
    requires Enabled(s, e) && e.Deliver? && e.packet.msg.Data? && e.to == e.packet.msg.dst && e.sender.Some?
    ensures Arrives(k, s, [e], e.packet.msg)
  {
    hide Handle;
    var run := [e];
    assert e in run && forall f <- run :: f == e;
    assert run[0] == e && run[1..] == [] && Legal(k, Apply(k, s, e), run[1..]);
    assert SamePayload(e.packet.msg, e.packet.msg);
  }

  lemma OneMoreLeg(k: Crypto, s: Net, e: Event, rest: seq<Event>, m: Msg)
    requires Enabled(s, e) && e.Deliver? && SamePayload(m, e.packet.msg) && Arrives(k, Apply(k, s, e), rest, m)
    ensures Arrives(k, s, [e] + rest, e.packet.msg)
  {
    hide Handle, Apply;
    var run := [e] + rest;
    assert run[0] == e && run[1..] == rest;
    forall f | f in run && f.Deliver? ensures SamePayload(f.packet.msg, e.packet.msg) {
      assert f == e || f in rest;
    }
    forall f | f in run ensures !f.Local? {
      assert f == e || f in rest;
    }
    var a :| a in rest && a.Deliver? && a.to == m.dst && a.sender.Some? && SamePayload(a.packet.msg, m);
    assert a in run;
    assert m.(dttl := 0) == e.packet.msg.(dttl := 0);
  }

  lemma ArrivalEvent(k: Crypto, s: Net, p: Packet) returns (e: Event)
    requires Acquainted(k, s) && p in s.flight && OnTheWay(s.nodes, p)
    ensures e.Deliver? && e.packet == p && e.sender.Some? && Enabled(s, e)
  {
    var z, y :| OnTheWayTo(s.nodes, p, z, y);
    assert PipOk(s.nodes, y, s.nodes[z].peers[y].pip);
    e := Deliver(z, p, Some(y));
  }

  /** A sent copy with a path that its TTL covers is under way. */
  lemma SentOnPath(k: Crypto, s: Net, q: Packet, y: Addr)
    requires HonestNodes(k, s.nodes) && SentBy(s.nodes, q, y) && 0 < q.msg.dttl <= 5
    requires PathWithin(s.nodes, y, q.msg.dst, q.msg.dttl)
    ensures OnTheWay(s.nodes, q)
  {
    var d := q.msg.dst;
    PathWithinStep(s.nodes, y, d, q.msg.dttl);
    assert PipOk(s.nodes, q.entry, s.nodes[y].peers[q.entry].pip);
    if q.entry != d {
      var n: nat :| n <= q.msg.dttl - 1 && Path(s.nodes, q.entry, d, n);
      assert n < q.msg.dttl && Path(s.nodes, q.entry, d, n);
    }
    assert OnTheWayTo(s.nodes, q, q.entry, y);
  }

  // ---------------------------------------------------------------- the exact bound

  /**
   * A copy that a node has sent, with any TTL up to five and no other copy in flight, can reach its destination by
   * deliveries if and only if the node has a path of at most that many sends.
   */
  lemma ArrivesWithinTtl(k: Crypto, s: Net, q: Packet, y: Addr)
    requires Acquainted(k, s) && q in s.flight && SentBy(s.nodes, q, y) && 0 < q.msg.dttl <= 5
    requires forall p <- s.flight :: SamePayload(p.msg, q.msg) ==> p == q
    ensures (exists run :: Arrives(k, s, run, q.msg)) <==> PathWithin(s.nodes, y, q.msg.dst, q.msg.dttl)
  {
    hide Acquainted, Legal, OnTheWay, PathWithin;
    HonestOf(k, s);
    var begun := PathWithin(s.nodes, y, q.msg.dst, q.msg.dttl);
    if begun {
      SentOnPath(k, s, q, y);
      var run := SomeRunDelivers(k, s, q);
    }
    assert Trails(s.nodes, s.flight, q.msg, begun) by {
      assert TrailFrom(s.nodes, q, y, begun);
    }
    forall run | Arrives(k, s, run, q.msg) ensures begun {
      NoArrivalWithoutPath(k, s, s, run, q.msg, begun);
    }
  }

  /** What a node sends for a frame read from TUN: the encrypted packet, or a dummy when there is no tunnel. */
  function TunMessage(k: Crypto, n: Node, frame: Bytes, nonce: Octets24): Msg
    requires |frame| >= 44
  {
    var src, dst := FrameSource(frame), FrameDestination(frame);
    if dst in n.tunnels then Data(src, dst, DATA_ROUTE_TTL, nonce, k.box(n.tunnels[dst], nonce, Cleartext(frame)))
    else Data(src, dst, DATA_ROUTE_TTL, k.dummyNonce, [])
  }

  /** Reading the frame sends its message to the first hop, or sends no data at all. */
  lemma FrameIsSent(k: Crypto, s: Net, a: Addr, frame: Bytes, nonce: Octets24)
    requires Acquainted(k, s) && a in s.nodes && |frame| >= 44 && frame[28] == 0xFD
    ensures var e := Local(a, FromTun(frame, nonce));
            var m := TunMessage(k, s.nodes[a], frame, nonce);
            && SameTables(s.nodes, Apply(k, s, e).nodes)
            && (forall q <- StepOf(k, s, e).sent :: q.msg.Query? || (q.msg == m && SentBy(s.nodes, q, a)))
            && (FirstHop(s.nodes[a], m.dst).Some? ==> exists q :: StepOf(k, s, e).sent == multiset{q} && q.msg == m)
  {
    hide Handle, TunMessage, Inv;
    var n, m, e := s.nodes[a], TunMessage(k, s.nodes[a], frame, nonce), Local(a, FromTun(frame, nonce));
    TunStep(k, n, frame, nonce);
    SameAsItself(s.nodes);
    assert m.dst in n.routes ==> HopKnown(s.nodes, a, m.dst);
    hide Acquainted;
    ForwardedTo(s.nodes, n, a, m.src, m.dst, Reason(ZERO_ADDR, RouteOwnPacket), DATA_ROUTE_TTL, m.nonce, m.blob);
    hide RouteTop, SentBy, SameTables, FirstHop;
    var f := RouteTop(n, m.src, m.dst, Reason(ZERO_ADDR, RouteOwnPacket), DATA_ROUTE_TTL, m.nonce, m.blob);
    assert StepOf(k, s, e) == Forwarded(f);
    TablesAfter(k, s.nodes, s, e);
  }

  lemma SameAsItself(nodes: Nodes)
    ensures SameTables(nodes, nodes)
  {}

  lemma TunStep(k: Crypto, n: Node, frame: Bytes, nonce: Octets24)
    requires |frame| >= 44 && frame[28] == 0xFD
    ensures var m := TunMessage(k, n, frame, nonce);
            && m == Data(FrameSource(frame), FrameDestination(frame), DATA_ROUTE_TTL, m.nonce, m.blob)
            && Handle(k, n, FromTun(frame, nonce))
            == Forwarded(RouteTop(n, m.src, m.dst, Reason(ZERO_ADDR, RouteOwnPacket), DATA_ROUTE_TTL, m.nonce, m.blob))
  {
    hide RouteTop;
  }

  /**
   * The exact delivery bound: after any run without deletion, a frame read from TUN, of which no copy is in flight, can
   * reach its destination by deliveries of its copies if and only if its path has at most five sends.
   */
  lemma DeliveredIffPathAtMostFive(k: Crypto, s0: Net, before: seq<Event>, a: Addr, frame: Bytes, nonce: Octets24)
    requires Initial(k, s0) && Unacquainted(s0) && Legal(k, s0, before)
    requires forall e <- before :: NoDeletion(e)
    requires a in Run(k, s0, before).nodes && |frame| >= 44 && frame[28] == 0xFD
    requires var s := Run(k, s0, before);
             forall p <- s.flight :: !SamePayload(p.msg, TunMessage(k, s.nodes[a], frame, nonce))
    ensures var s := Run(k, s0, before);
            var s1 := Apply(k, s, Local(a, FromTun(frame, nonce)));
            (exists run :: Arrives(k, s1, run, TunMessage(k, s.nodes[a], frame, nonce)))
            <==> PathWithin(s.nodes, a, FrameDestination(frame), 5)
  {
    hide Legal, Apply, FlightAddressed;
    AcquaintedAlways(k, s0, before);
    FrameArrivesIff(k, Run(k, s0, before), a, frame, nonce);
  }

  lemma FrameArrivesIff(k: Crypto, s: Net, a: Addr, frame: Bytes, nonce: Octets24)
    requires Acquainted(k, s) && a in s.nodes && |frame| >= 44 && frame[28] == 0xFD
    requires forall p <- s.flight :: !SamePayload(p.msg, TunMessage(k, s.nodes[a], frame, nonce))
    ensures var s1 := Apply(k, s, Local(a, FromTun(frame, nonce)));
            (exists run :: Arrives(k, s1, run, TunMessage(k, s.nodes[a], frame, nonce)))
            <==> PathWithin(s.nodes, a, FrameDestination(frame), 5)
  {
    hide Acquainted, Legal, OnTheWay, PathWithin, Handle, SameTables, Arrives;
    var e, m := Local(a, FromTun(frame, nonce)), TunMessage(k, s.nodes[a], frame, nonce);
    var s1, begun := Apply(k, s, e), PathWithin(s.nodes, a, m.dst, 5);
    FrameIsSent(k, s, a, frame, nonce);
    assert Trails(s.nodes, s1.flight, m, begun) by {
      forall q | q in s1.flight && SamePayload(q.msg, m) ensures Trail(s.nodes, q, begun) {
        assert q in StepOf(k, s, e).sent;
        assert TrailFrom(s.nodes, q, a, begun);
      }
    }
    forall run | Arrives(k, s1, run, m) ensures begun {
      NoArrivalWithoutPath(k, s, s1, run, m, begun);
    }
    if begun {
      PathWithinStep(s.nodes, a, m.dst, 5);
      var q :| StepOf(k, s, e).sent == multiset{q} && q.msg == m;
      AcquaintedKept(k, s, e);
      HonestOf(k, s1);
      SentBySame(s.nodes, s1.nodes, q, a, m.dst);
      SentOnPath(k, s1, q, a);
      var run := SomeRunDelivers(k, s1, q);
    }
  }

  lemma SentBySame(a: Nodes, b: Nodes, q: Packet, y: Addr, d: Addr)
    requires SameTables(a, b) && SentBy(a, q, y) && PathWithin(a, y, d, 5)
    ensures SentBy(b, q, y) && PathWithin(b, y, d, 5)
  {
    var n: nat :| n <= 5 && Path(a, y, d, n);
    SamePath(a, b, y, d, n);
  }
}
