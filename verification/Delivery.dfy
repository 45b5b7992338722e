/** Which data arrives: the forwarding path, its length, and the nodes that recognise each other along it. */
module Delivery {
  import opened Basics
  import opened NodeModel
  import opened NodeFacts
  import opened Network
  import opened LoopFreedom

  // ---------------------------------------------------------------- who knows whom

  /** The user removes no peers. */
  predicate NoDeletion(e: Event) {
    e.Local? ==> !e.input.DeletePeerOp? && !e.input.DeleteAllOp?
  }

  /** The user removes no peers, and adds `d` nowhere; `public_hi` still does. */
  predicate NoPeerOps(e: Event, d: Addr) {
    NoDeletion(e) && (e.Local? && e.input.AddPeerOp? ==> e.input.ref.hip != d)
  }

  /** `h` is a node that has `x` as a peer, so it recognises datagrams from `x`. */
  ghost predicate Knows(nodes: Nodes, h: Addr, x: Addr) {
    h in nodes && x in nodes[h].peers
  }

  /** Whoever lists `d` as a peer is known to `d`: the handshake with `d` is complete. */
  ghost predicate Confirmed(nodes: Nodes, d: Addr) {
    forall y <- nodes :: d in nodes[y].peers ==> Knows(nodes, d, y)
  }

  /** The node that backs the datagram still has the addressee as a peer. */
  ghost predicate Addressed(nodes: Nodes, p: Packet, y: Addr) {
    BackedBy(nodes, p, y) && p.entry in nodes[y].peers && PipOk(nodes, p.entry, p.to)
  }

  ghost predicate FlightAddressed(nodes: Nodes, p: Packet) {
    exists y :: Addressed(nodes, p, y)
  }

  ghost predicate KeysKnown(nodes: Nodes, x: Addr, h: Addr)
    requires x in nodes && h in nodes[x].peers
  {
    nodes[x].peers[h].pubkey.Some? ==> Knows(nodes, h, x)
  }

  ghost predicate HopKnown(nodes: Nodes, x: Addr, d: Addr)
    requires x in nodes && d in nodes[x].routes
  {
    var h := nodes[x].routes[d].nexthop;
    h in nodes[x].peers && Knows(nodes, h, x)
  }

  /** What holds in addition while nobody removes peers. */
  ghost predicate Acquainted(k: Crypto, s: Net) {
    && Inv(k, s)
    && (forall x <- s.nodes, h <- s.nodes[x].peers :: KeysKnown(s.nodes, x, h))
    && (forall x <- s.nodes, d <- s.nodes[x].routes :: HopKnown(s.nodes, x, d))
    && (forall p <- s.flight :: FlightAddressed(s.nodes, p))
  }

  /** At the start nobody has anybody's key. */
  ghost predicate Unacquainted(s: Net) {
    forall x <- s.nodes, h <- s.nodes[x].peers :: s.nodes[x].peers[h].pubkey.None?
  }

  // ---------------------------------------------------------------- peers without deletion

  /** Peers are kept, and a key appears only with a `public_hi` of its owner. */
  ghost predicate PeersGrow(k: Crypto, a: Node, input: Input, b: Node) {
    && a.peers.Keys <= b.peers.Keys
    && (forall h <- b.peers | b.peers[h].pubkey.Some? ::
          || (h in a.peers && a.peers[h].pubkey.Some?)
          || (input.FromUdp? && input.msg.Hi? && h == k.hipOf(input.msg.cred.idi)))
    && (forall h <- b.peers | h !in a.peers ::
          input.AddPeerOp? || (input.FromUdp? && input.msg.Hi? && h == k.hipOf(input.msg.cred.idi)))
  }

  lemma HiPeersGrow(k: Crypto, n: Node, from: Pip, sender: Option<Addr>, cred: Credentials)
    ensures PeersGrow(k, n, FromUdp(from, sender, Hi(cred)), HandleHi(k, n, from, cred).node)
  {}

  lemma PeersOnlyGrow(k: Crypto, n: Node, input: Input)
    requires !input.DeletePeerOp? && !input.DeleteAllOp?
    ensures PeersGrow(k, n, input, Handle(k, n, input).node)
  {
    match input
    case FromTun(frame, nonce) => TunFacts(k, n, frame, nonce);
    case FromUdp(from, sender, msg) =>
      match msg {
        case Hi(cred) => HiPeersGrow(k, n, from, sender, cred);
        case Reply(_, _, _, _) =>
        case _ => UdpFacts(k, n, from, sender, msg);
      }
    case _ =>
  }

  ghost predicate AllKeepPeers(a: Nodes, b: Nodes) {
    a.Keys == b.Keys && forall x <- a :: a[x].peers.Keys <= b[x].peers.Keys
  }

  lemma GrowthOf(k: Crypto, s: Net, e: Event)
    requires Enabled(s, e) && NoDeletion(e)
    ensures AllGrow(s.nodes, Apply(k, s, e).nodes)
    ensures AllKeepPeers(s.nodes, Apply(k, s, e).nodes)
  {
    if Acts(e) {
      var x, st := Actor(e), StepOf(k, s, e);
      HandleFacts(k, s.nodes[x], EventInput(e));
      PeersOnlyGrow(k, s.nodes[x], EventInput(e));
      GrowthByOne(s.nodes, x, st.node);
    }
  }

  lemma KnowsKept(a: Nodes, b: Nodes, h: Addr, x: Addr)
    requires AllKeepPeers(a, b) && Knows(a, h, x)
    ensures Knows(b, h, x)
  {}

  /** A datagram reaches the peer it was addressed to, and its sender knows that peer. */
  lemma ReceiverIsKnown(k: Crypto, s: Net, e: Event) returns (y: Addr)
    requires Acquainted(k, s) && Enabled(s, e) && e.Deliver?
    ensures BackedBy(s.nodes, e.packet, y) && Knows(s.nodes, y, e.to)
    ensures e.sender.Some? ==> e.sender.value == y
  {
    assert FlightAddressed(s.nodes, e.packet);
    y :| Addressed(s.nodes, e.packet, y);
    assert e.packet.entry == e.to;
    if e.sender.Some? {
      assert PipOk(s.nodes, e.sender.value, s.nodes[e.to].peers[e.sender.value].pip);
    }
  }

  lemma KeyKnownAfter(k: Crypto, s: Net, e: Event, x: Addr, h: Addr)
    requires Acquainted(k, s) && Enabled(s, e) && NoDeletion(e)
    requires x in s.nodes && h in Apply(k, s, e).nodes[x].peers
    ensures KeysKnown(Apply(k, s, e).nodes, x, h)
  {
    hide Handle, Inv, HopKnown, FlightAddressed;
    var nodes := Apply(k, s, e).nodes;
    GrowthOf(k, s, e);
    if nodes[x].peers[h].pubkey.Some? {
      if h in s.nodes[x].peers && s.nodes[x].peers[h].pubkey.Some? {
        assert KeysKnown(s.nodes, x, h);
      } else {
        PeersOnlyGrow(k, s.nodes[Actor(e)], EventInput(e));
        var y := ReceiverIsKnown(k, s, e);
        assert y == h by { HiNamesSender(k, s, e, y); }
      }
      KnowsKept(s.nodes, nodes, h, x);
    }
  }

  lemma HiNamesSender(k: Crypto, s: Net, e: Event, y: Addr)
    requires Inv(k, s) && e.Deliver? && e.packet.msg.Hi? && BackedBy(s.nodes, e.packet, y)
    ensures k.hipOf(e.packet.msg.cred.idi) == y
  {}

  lemma HopKnownAfter(k: Crypto, s: Net, e: Event, x: Addr, d: Addr)
    requires Acquainted(k, s) && Enabled(s, e) && NoDeletion(e)
    requires x in s.nodes && d in Apply(k, s, e).nodes[x].routes
    ensures HopKnown(Apply(k, s, e).nodes, x, d)
  {
    hide Handle, FlightAddressed, LoopFree;
    var nodes := Apply(k, s, e).nodes;
    GrowthOf(k, s, e);
    var h := nodes[x].routes[d].nexthop;
    if d in s.nodes[x].routes {
      assert HopKnown(s.nodes, x, d);
    } else {
      HandleFacts(k, s.nodes[x], EventInput(e));
      if d in s.nodes[x].peers && s.nodes[x].peers[d].pubkey.Some? && h == d {
        assert KeysKnown(s.nodes, x, d);
      } else {
        assert TellsRoute(EventInput(e), d, h, nodes[x].routes[d].cost);
        var y := ReceiverIsKnown(k, s, e);
      }
    }
    KnowsKept(s.nodes, nodes, h, x);
  }

  lemma AddressedKept(a: Nodes, b: Nodes, p: Packet)
    requires AllGrow(a, b) && AllKeepPeers(a, b) && FlightAddressed(a, p)
    ensures FlightAddressed(b, p)
  {
    var y :| Addressed(a, p, y);
    assert SameIdentity(a[y], b[y]) && Grows(a[y], b[y]);
    assert forall z <- b :: b[z].pip == a[z].pip;
    assert Addressed(b, p, y);
  }

  lemma AddressedAfter(a: Nodes, b: Nodes, x: Addr, p: Packet)
    requires AllGrow(a, b) && AllKeepPeers(a, b) && x in a && p.entry in a[x].peers && PipOk(a, p.entry, p.to)
    requires BackedBy(b, p, x)
    ensures FlightAddressed(b, p)
  {
    assert forall z <- b :: SameIdentity(a[z], b[z]);
    assert Addressed(b, p, x);
  }

  lemma SentIsAddressed(k: Crypto, s: Net, e: Event, p: Packet)
    requires Acquainted(k, s) && Enabled(s, e) && NoDeletion(e) && Acts(e) && p in StepOf(k, s, e).sent
    ensures FlightAddressed(Apply(k, s, e).nodes, p)
  {
    hide Handle, KeysKnown, HopKnown, LoopFree, FlightAddressed;
    var x, st := Actor(e), StepOf(k, s, e);
    GrowthOf(k, s, e);
    HandleFacts(k, s.nodes[x], EventInput(e));
    StepUniform(k, s, e);
    assert PipOk(s.nodes, p.entry, p.to);
    assert BackedBy(s.nodes[x := st.node], p, x);
    AddressedAfter(s.nodes, Apply(k, s, e).nodes, x, p);
  }

  lemma AcquaintedKept(k: Crypto, s: Net, e: Event)
    requires Acquainted(k, s) && Enabled(s, e) && NoDeletion(e)
    ensures Acquainted(k, Apply(k, s, e))
  {
    hide Handle, Inv, KeysKnown, HopKnown, FlightAddressed;
    InvKept(k, s, e);
    GrowthOf(k, s, e);
    var s' := Apply(k, s, e);
    forall x, h | x in s'.nodes && h in s'.nodes[x].peers ensures KeysKnown(s'.nodes, x, h) {
      KeyKnownAfter(k, s, e, x, h);
    }
    forall x, d | x in s'.nodes && d in s'.nodes[x].routes ensures HopKnown(s'.nodes, x, d) {
      HopKnownAfter(k, s, e, x, d);
    }
    forall p | p in s'.flight ensures FlightAddressed(s'.nodes, p) {
      if p in s.flight {
        AddressedKept(s.nodes, s'.nodes, p);
      } else {
        SentIsAddressed(k, s, e, p);
      }
    }
  }

  lemma {:induction false} AcquaintedAlways(k: Crypto, s: Net, run: seq<Event>)
    requires Acquainted(k, s) && Legal(k, s, run)
    requires forall e <- run :: NoDeletion(e)
    ensures Acquainted(k, Run(k, s, run))
    decreases |run|
  {
    if run != [] {
      AcquaintedKept(k, s, run[0]);
      AcquaintedAlways(k, Apply(k, s, run[0]), run[1..]);
    }
  }

  /** As long as no peers are removed, every stored next hop is a peer that has this node as a peer too. */
  lemma NextHopsArePeers(k: Crypto, s: Net, run: seq<Event>)
    requires Initial(k, s) && Unacquainted(s) && Legal(k, s, run)
    requires forall e <- run :: NoDeletion(e)
    ensures var s' := Run(k, s, run);
            forall x <- s'.nodes, d <- s'.nodes[x].routes :: HopKnown(s'.nodes, x, d)
  {
    AcquaintedAlways(k, s, run);
  }
}
