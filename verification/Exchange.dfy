/** What the messages achieve between honest nodes: asking, answering, learning, the handshake, and finding a route. */
module Exchange {
  import opened Basics
  import opened NodeModel
  import opened NodeFacts
  import opened Network
  import opened LoopFreedom
  import opened Effects

  // ---------------------------------------------------------------- one event

  /** A handled input puts what it sends in flight, and changes its own node only. */
  lemma Handled(k: Crypto, s: Net, e: Event, st: Step)
    requires Enabled(s, e) && Acts(e) && st == Handle(k, s.nodes[Actor(e)], EventInput(e))
    ensures Apply(k, s, e).nodes == s.nodes[Actor(e) := st.node]
    ensures forall p <- st.sent :: p in Apply(k, s, e).flight
    ensures e.Local? ==> Apply(k, s, e).flight == s.flight + st.sent
    ensures e.Deliver? ==> Apply(k, s, e).flight == s.flight - multiset{e.packet} + st.sent
  {
    hide Handle;
  }

  /** A frame for a destination that is neither known nor searched puts a query to every peer in flight. */
  lemma FrameAsksAll(k: Crypto, s: Net, a: Addr, frame: Bytes, nonce: Octets24)
    requires a in s.nodes && |frame| >= 44 && frame[28] == 0xFD && s.nodes[a].peers != map[]
    requires var n, dst := s.nodes[a], FrameDestination(frame); dst !in n.peers && dst !in n.routes && dst !in n.search
    ensures var n, dst := s.nodes[a], FrameDestination(frame);
            var s' := Apply(k, s, Local(a, FromTun(frame, nonce)));
            && Enabled(s, Local(a, FromTun(frame, nonce)))
            && (forall h <- n.peers :: var q := Packet(n.pip, h, n.peers[h].pip, Query(dst, 5)); s'.flight[q] == s.flight[q] + 1)
            && a in s'.nodes && dst in s'.nodes[a].search
            && s'.nodes == s.nodes[a := n.(search := n.search[dst := s'.nodes[a].search[dst]])]
  {
    var n, dst, e := s.nodes[a], FrameDestination(frame), Local(a, FromTun(frame, nonce));
    var st := HandleTun(k, n, frame, nonce);
    FrameAsks(k, n, frame, nonce);
    hide HandleTun;
    Handled(k, s, e, st);
    hide Apply;
  }

  /** In an honest run a reply about an unknown goal gives its receiver a route through the node it came from, and so a chain. */
  lemma ReplyGivesRoute(k: Crypto, s: Net, e: Event)
    requires Inv(k, s) && Enabled(s, e) && e.Deliver? && e.sender.Some?
    requires e.packet.msg.Reply? && e.packet.msg.rttl >= 1 && e.packet.msg.rgoal !in s.nodes[e.to].routes
    ensures var m, nodes := e.packet.msg, Apply(k, s, e).nodes;
            && e.to in nodes && m.rgoal in nodes[e.to].routes
            && nodes[e.to].routes[m.rgoal] == Route(e.sender.value, 1, m.pubkey)
            && HasChain(nodes, e.to, m.rgoal)
            && k.hipOf(m.pubkey) in nodes[e.to].tunnels
            && (k.hipOf(m.pubkey) !in s.nodes[e.to].tunnels ==> nodes[e.to].tunnels[k.hipOf(m.pubkey)] == m.pubkey)
  {
    var m, n := e.packet.msg, s.nodes[e.to];
    var st := HandleReply(k, n, e.sender.value, m.rttl, m.cost, m.rgoal, m.pubkey);
    ReplyTeaches(k, n, e.sender.value, m.rttl, m.cost, m.rgoal, m.pubkey);
    var y := SenderIsBacker(k, s, e.to, e.packet, e.sender);
    LoopFreedomKept(k, s, e);
    hide HandleReply, Inv;
    Handled(k, s, e, st);
  }

  /** An honest query for a goal that can be answered puts exactly its reply in flight. */
  lemma QueryGetsReply(k: Crypto, s: Net, e: Event) returns (q: Packet)
    requires Enabled(s, e) && e.Deliver? && e.sender.Some? && e.packet.msg.Query? && Asking(e.packet.msg.ttl)
    requires CanAnswer(s.nodes[e.to], e.packet.msg.goal)
    ensures var m, n, s' := e.packet.msg, s.nodes[e.to], Apply(k, s, e);
            && s'.flight == s.flight - multiset{e.packet} + multiset{q}
            && e.to in s'.nodes && m.goal in s'.nodes[e.to].routes
            && s'.nodes == s.nodes[e.to := n.(routes := n.routes[m.goal := s'.nodes[e.to].routes[m.goal]])]
            && var r := s'.nodes[e.to].routes[m.goal];
               q == Packet(n.pip, e.sender.value, n.peers[e.sender.value].pip, Reply(m.ttl, r.cost, m.goal, r.pubkey))
  {
    var m, n, h := e.packet.msg, s.nodes[e.to], e.sender.value;
    QueryAnswered(n, h, m.goal, m.ttl);
    var st := HandleQuery(n, h, m.goal, m.ttl);
    hide HandleQuery, CanAnswer;
    Handled(k, s, e, st);
    var r := st.node.routes[m.goal];
    q := Packet(n.pip, h, n.peers[h].pip, Reply(m.ttl, r.cost, m.goal, r.pubkey));
  }

  // ---------------------------------------------------------------- the handshake

  /**
   * A ping of a node with valid credentials, delivered to a peer that has not banned it, makes that peer know it: as a
   * peer at its address, with its key, and with a tunnel.
   */
  lemma PingIntroduces(k: Crypto, s: Net, a: Addr, b: Addr, sender: Option<Addr>) returns (run: seq<Event>)
    requires HonestNodes(k, s.nodes) && a in s.nodes && b in s.nodes && a != b && b in s.nodes[a].peers
    requires k.verifies(s.nodes[a].cred) && (a in s.nodes[b].peers || a !in s.nodes[b].black)
    requires Recognised(s.nodes[b], s.nodes[a].pip, sender)
    ensures Legal(k, s, run)
    ensures var nodes := Run(k, s, run).nodes;
            && b in nodes && a in nodes[b].peers && a in nodes[b].tunnels
            && nodes[b].peers[a] == Peer(s.nodes[a].pip, a, Some(s.nodes[a].cred.idi))
            && (a !in s.nodes[b].tunnels ==> nodes[b].tunnels[a] == s.nodes[a].cred.idi)
  {
    var n, cred := s.nodes[a], s.nodes[a].cred;
    assert PipOk(s.nodes, b, n.peers[b].pip);
    var hi := Packet(n.pip, b, n.peers[b].pip, Hi(cred));
    var ping, deliver := Local(a, PingAll), Deliver(b, hi, sender);
    PingReachesAll(k, n);
    Handled(k, s, ping, Handle(k, n, PingAll));
    var s1 := Apply(k, s, ping);
    assert s1.nodes == s.nodes;
    assert Handle(k, n, PingAll).sent[hi] == 1 && hi in s1.flight;
    assert a in s.nodes[b].peers ==> s.nodes[b].peers[a].hip == a;
    HiAccepted(k, s.nodes[b], n.pip, cred);
    hide Broadcast, HandleHi;
    Handled(k, s1, deliver, HandleHi(k, s.nodes[b], n.pip, cred));
    run := [ping, deliver];
    TwoEvents(k, s, ping, deliver);
  }

  lemma TwoEvents(k: Crypto, s: Net, e1: Event, e2: Event)
    requires Enabled(s, e1) && Enabled(Apply(k, s, e1), e2)
    ensures Legal(k, s, [e1, e2]) && Run(k, s, [e1, e2]) == Apply(k, Apply(k, s, e1), e2)
  {
    hide Apply, Enabled;
    var run, s1 := [e1, e2], Apply(k, s, e1);
    var s2 := Apply(k, s1, e2);
    assert run[1..] == [e2] && [e2][1..] == [];
    assert Legal(k, s2, []) && Legal(k, s1, [e2]) && Run(k, s2, []) == s2 && Run(k, s1, [e2]) == s2;
  }

  lemma OneAndMore(k: Crypto, s: Net, e: Event, rest: seq<Event>)
    requires Enabled(s, e) && Legal(k, Apply(k, s, e), rest)
    ensures Legal(k, s, [e] + rest) && Run(k, s, [e] + rest) == Run(k, Apply(k, s, e), rest)
  {
    hide Apply, Enabled;
    assert ([e] + rest)[1..] == rest;
  }

  // ---------------------------------------------------------------- finding a route

  /** The network after `a` has asked `b` for `c` and `b` has answered. */
  ghost predicate Found(k: Crypto, s: Net, a: Addr, b: Addr, c: Addr, nodes: Nodes) {
    && a in nodes && b in nodes && c in nodes[a].routes && c in nodes[b].routes
    && nodes[a].routes[c] == Route(b, 1, nodes[b].routes[c].pubkey) && HasChain(nodes, a, c)
    && k.hipOf(nodes[b].routes[c].pubkey) in nodes[a].tunnels
    && (b in s.nodes && c in s.nodes[b].routes ==> nodes[b].routes[c] == s.nodes[b].routes[c])
  }

  /** The query from `a` reaches `b`, which answers it. */
  lemma AskIsAnswered(k: Crypto, s: Net, a: Addr, b: Addr, c: Addr) returns (ask: Event, q: Packet)
    requires HonestNodes(k, s.nodes) && a in s.nodes && b in s.nodes && a != b
    requires b in s.nodes[a].peers && a in s.nodes[b].peers && CanAnswer(s.nodes[b], c)
    requires Packet(s.nodes[a].pip, b, s.nodes[a].peers[b].pip, Query(c, 5)) in s.flight
    ensures Enabled(s, ask) && Acts(ask) && Actor(ask) == b
    ensures var s1 := Apply(k, s, ask);
            && q in s1.flight && a in s1.nodes && s1.nodes[a] == s.nodes[a]
            && b in s1.nodes && c in s1.nodes[b].routes && s1.nodes[b].pip == s.nodes[b].pip
            && q == Packet(s.nodes[b].pip, a, s.nodes[b].peers[a].pip,
                           Reply(5, s1.nodes[b].routes[c].cost, c, s1.nodes[b].routes[c].pubkey))
  {
    assert PipOk(s.nodes, b, s.nodes[a].peers[b].pip) && PipOk(s.nodes, a, s.nodes[b].peers[a].pip);
    ask := Deliver(b, Packet(s.nodes[a].pip, b, s.nodes[a].peers[b].pip, Query(c, 5)), Some(a));
    hide HonestNodes, CanAnswer;
    q := QueryGetsReply(k, s, ask);
    hide Apply;
  }

  /** The answer reaches `a`, which learns the route. */
  lemma AnswerIsLearned(k: Crypto, s: Net, a: Addr, b: Addr, c: Addr, q: Packet) returns (answer: Event)
    requires Inv(k, s) && a in s.nodes && b in s.nodes && a != b && b in s.nodes[a].peers
    requires c !in s.nodes[a].routes && c in s.nodes[b].routes && q in s.flight
    requires q.from == s.nodes[b].pip && q.to == s.nodes[a].pip
    requires q.msg.Reply? && q.msg.rttl >= 1 && q.msg.rgoal == c && q.msg.pubkey == s.nodes[b].routes[c].pubkey
    ensures Enabled(s, answer) && Found(k, s, a, b, c, Apply(k, s, answer).nodes)
  {
    assert PipOk(s.nodes, b, s.nodes[a].peers[b].pip);
    answer := Deliver(a, q, Some(b));
    ReplyGivesRoute(k, s, answer);
    KeepsOther(k, s, answer, b);
    hide Inv, Apply;
  }

  /** The query is delivered, answered, and the answer delivered. */
  lemma AnswerArrives(k: Crypto, s: Net, a: Addr, b: Addr, c: Addr) returns (run: seq<Event>)
    requires Inv(k, s) && a in s.nodes && b in s.nodes && a != b
    requires b in s.nodes[a].peers && a in s.nodes[b].peers
    requires c !in s.nodes[a].routes && CanAnswer(s.nodes[b], c)
    requires Packet(s.nodes[a].pip, b, s.nodes[a].peers[b].pip, Query(c, 5)) in s.flight
    ensures Legal(k, s, run) && Found(k, s, a, b, c, Run(k, s, run).nodes)
  {
    assert PipOk(s.nodes, a, s.nodes[b].peers[a].pip);
    hide Enabled, Apply, CanAnswer;
    var ask, q := AskIsAnswered(k, s, a, b, c);
    InvKept(k, s, ask);
    hide Inv;
    var s1 := Apply(k, s, ask);
    var answer := AnswerIsLearned(k, s1, a, b, c, q);
    if c in s.nodes[b].routes {
      KeptWhenKnown(k, s, ask, b, c);
    }
    TwoEvents(k, s, ask, answer);
    run := [ask, answer];
  }

  lemma KeepsOther(k: Crypto, s: Net, e: Event, b: Addr)
    requires Enabled(s, e) && Acts(e) && b in s.nodes && Actor(e) != b
    ensures b in Apply(k, s, e).nodes && Apply(k, s, e).nodes[b] == s.nodes[b]
  {
    hide Handle;
  }

  lemma KeptWhenKnown(k: Crypto, s: Net, e: Event, b: Addr, c: Addr)
    requires Enabled(s, e) && Acts(e) && b in s.nodes && Actor(e) == b && c in s.nodes[b].routes
    ensures var nodes := Apply(k, s, e).nodes; c in nodes[b].routes && nodes[b].routes[c] == s.nodes[b].routes[c]
  {
    HandleFacts(k, s.nodes[b], EventInput(e));
    hide Handle;
  }

  /**
   * A frame for an unknown destination finds a route whenever some peer, which has this node as a peer, can answer: three
   * events give the node a route through that peer, with its key, and a tunnel.
   */
  lemma RouteIsFound(k: Crypto, s: Net, a: Addr, b: Addr, frame: Bytes, nonce: Octets24) returns (run: seq<Event>)
    requires Inv(k, s) && a in s.nodes && b in s.nodes && a != b && |frame| >= 44 && frame[28] == 0xFD
    requires b in s.nodes[a].peers && a in s.nodes[b].peers && CanAnswer(s.nodes[b], FrameDestination(frame))
    requires var n, c := s.nodes[a], FrameDestination(frame); c !in n.peers && c !in n.routes && c !in n.search
    ensures Legal(k, s, run) && Found(k, s, a, b, FrameDestination(frame), Run(k, s, run).nodes)
  {
    var c, read := FrameDestination(frame), Local(a, FromTun(frame, nonce));
    FrameAsksAll(k, s, a, frame, nonce);
    InvKept(k, s, read);
    hide Inv, CanAnswer;
    var s1 := Apply(k, s, read);
    assert s1.nodes[b] == s.nodes[b];
    var q := Packet(s.nodes[a].pip, b, s.nodes[a].peers[b].pip, Query(c, 5));
    assert s1.flight[q] == s.flight[q] + 1;
    hide Apply, Enabled;
    var rest := AnswerArrives(k, s1, a, b, c);
    run := [read] + rest;
    OneAndMore(k, s, read, rest);
    assert Found(k, s, a, b, c, Run(k, s1, rest).nodes);
  }
}
