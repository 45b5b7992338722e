/** A network of honest nodes: their states and the datagrams in flight, changed one event at a time. */
module Network {
  import opened Basics
  import opened NodeModel
  import opened NodeFacts

  type Nodes = map<Addr, Node>

  datatype Net = Net(nodes: Nodes, flight: multiset<Packet>)

  /** A node acts on its own, a datagram reaches the node it was sent to, is lost, or is delivered twice as UDP may. */
  datatype Event =
    | Local(at: Addr, input: Input)
    | Deliver(to: Addr, packet: Packet, sender: Option<Addr>)
    | Lose(lost: Packet)
    | Duplicate(copied: Packet)

  /** The physical address belongs to the node called `h`, and to no other node. */
  ghost predicate PipOk(nodes: Nodes, h: Addr, pip: Pip) {
    forall y <- nodes :: nodes[y].pip == pip <==> y == h
  }

  /** A node handles an input. */
  predicate Acts(e: Event) {
    e.Local? || e.Deliver?
  }

  function EventInput(e: Event): Input
    requires Acts(e)
  {
    match e
    case Local(_, input) => input
    case Deliver(_, p, sender) => FromUdp(p.from, sender, p.msg)
  }

  function Actor(e: Event): Addr
    requires Acts(e)
  {
    if e.Local? then e.at else e.to
  }

  /** Which events can happen in a network whose users give correct peer references. */
  ghost predicate Enabled(s: Net, e: Event) {
    match e
    case Local(x, input) =>
      && x in s.nodes && !input.FromUdp?
      && (input.AddPeerOp? ==> PipOk(s.nodes, input.ref.hip, input.ref.pip))
    case Deliver(x, p, sender) =>
      && x in s.nodes && p in s.flight && p.to == s.nodes[x].pip
      && Recognised(s.nodes[x], p.from, sender)
    case Lose(p) => p in s.flight
    case Duplicate(p) => p in s.flight
  }

  ghost function StepOf(k: Crypto, s: Net, e: Event): Step
    requires Acts(e) && Enabled(s, e)
  {
    Handle(k, s.nodes[Actor(e)], EventInput(e))
  }

  ghost function Apply(k: Crypto, s: Net, e: Event): Net
    requires Enabled(s, e)
  {
    match e
    case Lose(p) => s.(flight := s.flight - multiset{p})
    case Duplicate(p) => s.(flight := s.flight + multiset{p})
    case _ =>
      var st := StepOf(k, s, e);
      var left := if e.Deliver? then s.flight - multiset{e.packet} else s.flight;
      Net(s.nodes[Actor(e) := st.node], left + st.sent)
  }

  /** Nodes with their own distinct addresses and keys, correct peer entries, and nothing learned or sent yet. */
  ghost predicate Initial(k: Crypto, s: Net) {
    && HonestNodes(k, s.nodes) && s.flight == multiset{}
    && forall x <- s.nodes :: s.nodes[x].routes == map[] && s.nodes[x].search == map[]
  }

  ghost predicate HonestNodes(k: Crypto, nodes: Nodes) {
    && (forall x <- nodes :: nodes[x].me == x && k.hipOf(nodes[x].cred.idi) == x)
    && (forall x <- nodes, y <- nodes :: nodes[x].pip == nodes[y].pip ==> x == y)
    && (forall x <- nodes, h <- nodes[x].peers :: nodes[x].peers[h].hip == h && PipOk(nodes, h, nodes[x].peers[h].pip))
  }

  ghost predicate Legal(k: Crypto, s: Net, run: seq<Event>)
    decreases |run|
  {
    run != [] ==> Enabled(s, run[0]) && Legal(k, Apply(k, s, run[0]), run[1..])
  }

  ghost function Run(k: Crypto, s: Net, run: seq<Event>): Net
    requires Legal(k, s, run)
    decreases |run|
  {
    if run == [] then s else Run(k, Apply(k, s, run[0]), run[1..])
  }

  // ---------------------------------------------------------------- chains of next hops

  /** From `x`, following `n >= 1` stored next hops for `d` arrives at `d`, and not before. */
  ghost predicate Chain(nodes: Nodes, x: Addr, d: Addr, n: nat)
    decreases n
  {
    && n >= 1 && x in nodes && d in nodes[x].routes
    && var h := nodes[x].routes[d].nexthop;
       if h == d then n == 1 else n > 1 && Chain(nodes, h, d, n - 1)
  }

  ghost predicate HasChain(nodes: Nodes, x: Addr, d: Addr) {
    exists n: nat :: Chain(nodes, x, d, n)
  }

  ghost predicate LoopFree(nodes: Nodes) {
    forall x <- nodes, d <- nodes[x].routes :: HasChain(nodes, x, d)
  }

  ghost predicate AllGrow(a: Nodes, b: Nodes) {
    && a.Keys == b.Keys
    && forall x <- a :: SameIdentity(a[x], b[x]) && Grows(a[x], b[x])
  }

  lemma {:induction false} ChainGrows(a: Nodes, b: Nodes, x: Addr, d: Addr, n: nat)
    requires AllGrow(a, b) && Chain(a, x, d, n)
    ensures Chain(b, x, d, n)
    decreases n
  {
    var h := a[x].routes[d].nexthop;
    assert x in b && d in b[x].routes && b[x].routes[d] == a[x].routes[d];
    if h != d {
      ChainGrows(a, b, h, d, n - 1);
    }
  }

  // ---------------------------------------------------------------- the invariant of honest runs

  /** The node `y` sent the datagram and still stands by what it says. */
  ghost predicate BackedBy(nodes: Nodes, p: Packet, y: Addr) {
    && y in nodes && nodes[y].pip == p.from
    && match p.msg
       case Query(_, ttl) => ttl == 5
       case Reply(_, cost, g, _) => g in nodes[y].routes && cost == 1
       case Hi(c) => c == nodes[y].cred
       case Data(_, _, _, _, _) => true
  }

  ghost predicate Backed(nodes: Nodes, p: Packet) {
    exists y :: BackedBy(nodes, p, y)
  }

  ghost predicate UniformNode(n: Node) {
    && (forall d <- n.routes :: n.routes[d].cost == 1)
    && (forall d <- n.search :: n.search[d].ttlShouldUse == 5)
  }

  ghost predicate Inv(k: Crypto, s: Net) {
    && HonestNodes(k, s.nodes)
    && LoopFree(s.nodes)
    && (forall x <- s.nodes :: UniformNode(s.nodes[x]))
    && (forall p <- s.flight :: Backed(s.nodes, p))
  }
}
