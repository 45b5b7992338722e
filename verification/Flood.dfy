/** The query flood stops: each node asks for a destination once, and deliveries cannot go on forever. */
module Flood {
  import opened Basics
  import opened NodeModel
  import opened NodeFacts
  import opened PacketSums
  import opened Network
  import opened LoopFreedom

  // ---------------------------------------------------------------- asked at most once

  ghost predicate Asks(st: Step, d: Addr) {
    exists p <- st.sent :: p.msg.Query? && p.msg.goal == d
  }

  lemma {:induction false} SearchesStay(k: Crypto, s: Net, run: seq<Event>, x: Addr, d: Addr)
    requires Legal(k, s, run) && x in s.nodes && d in s.nodes[x].search
    ensures var s' := Run(k, s, run); x in s'.nodes && d in s'.nodes[x].search
    decreases |run|
  {
    if run != [] {
      var e := run[0];
      if Acts(e) {
        HandleFacts(k, s.nodes[Actor(e)], EventInput(e));
      }
      SearchesStay(k, Apply(k, s, e), run[1..], x, d);
    }
  }

  /** A node that has asked for `d` never asks for it again, in whatever state it began and whatever it receives. */
  lemma AskedAtMostOnce(k: Crypto, s: Net, e: Event, between: seq<Event>, again: Event, d: Addr)
    requires Enabled(s, e) && Acts(e) && Asks(StepOf(k, s, e), d)
    requires Legal(k, Apply(k, s, e), between)
    requires Enabled(Run(k, Apply(k, s, e), between), again) && Acts(again) && Actor(again) == Actor(e)
    ensures !Asks(StepOf(k, Run(k, Apply(k, s, e), between), again), d)
  {
    hide Handle;
    var s1 := Apply(k, s, e);
    var s2 := Run(k, s1, between);
    HandleFacts(k, s.nodes[Actor(e)], EventInput(e));
    SearchesStay(k, s1, between, Actor(e), d);
    HandleFacts(k, s2.nodes[Actor(again)], EventInput(again));
  }

  // ---------------------------------------------------------------- the measure

  /** The destinations that deliveries can make a node search for are all in `u`. */
  ghost predicate NodeScoped(n: Node, u: set<Addr>) {
    forall d <- n.routes :: n.routes[d].nexthop in u
  }

  predicate MsgScoped(m: Msg, u: set<Addr>) {
    (m.Query? ==> m.goal in u) && (m.Data? ==> m.src in u && m.dst in u)
  }

  ghost predicate Scoped(s: Net, u: set<Addr>) {
    && s.nodes.Keys <= u
    && (forall x <- s.nodes :: NodeScoped(s.nodes[x], u))
    && (forall p <- s.flight :: MsgScoped(p.msg, u))
  }

  /** The node/destination pairs without a search record. */
  ghost function Unsearched(nodes: Nodes, u: set<Addr>): set<(Addr, Addr)> {
    set x, d | x in nodes && d in u && d !in nodes[x].search :: (x, d)
  }

  function QueryWeight(p: Packet): nat { if p.msg.Query? then 1 else 0 }

  /** Everything but queries counts; data by how far it may still go. */
  function OtherWeight(p: Packet): nat {
    match p.msg
    case Query(_, _) => 0
    case Data(_, _, ttl, _, _) => ttl + 1
    case _ => 1
  }

  datatype Measure = Measure(unsearched: nat, queries: nat, others: nat)

  ghost function MeasureOf(s: Net, u: set<Addr>): Measure {
    Measure(|Unsearched(s.nodes, u)|, Sum(QueryWeight, s.flight), Sum(OtherWeight, s.flight))
  }

  predicate Less(a: Measure, b: Measure) {
    || a.unsearched < b.unsearched
    || (a.unsearched == b.unsearched && a.queries < b.queries)
    || (a.unsearched == b.unsearched && a.queries == b.queries && a.others < b.others)
  }

  // ---------------------------------------------------------------- what one message can set off at one node

  /** Either a search begins in `u`, or nothing is asked. */
  ghost predicate SearchOrSilence(n: Node, u: set<Addr>, n': Node, sent: multiset<Packet>) {
    || (exists d :: d in u && d !in n.search && d in n'.search)
    || (n'.search.Keys == n.search.Keys && forall p <- sent :: !p.msg.Query?)
  }

  lemma LookupSets(n: Node, dst: Addr, reason: Reason, start: bool, ttl: int, u: set<Addr>)
    requires dst in u
    ensures var r := GetRouteOrMaybeSearch(n, dst, reason, start, ttl);
            && SearchOrSilence(n, u, r.node, r.sent)
            && (forall p <- r.sent :: MsgScoped(p.msg, u))
            && (dst !in n.peers ==> r.node.routes == n.routes)
            && (r.sent == multiset{} || forall p <- r.sent :: p.msg.Query? && dst !in n.search && dst in r.node.search)
  {
    LookupFacts(n, dst, reason, start, ttl);
    if dst !in n.peers && dst !in n.routes && start && dst !in n.search {
      var r := GetRouteOrMaybeSearch(n, dst, reason, start, ttl);
      forall p | p in r.sent ensures p.msg.Query? && p.msg.goal == dst {
        BroadcastMember(n, Query(dst, AddRequest(NewSearch(), reason, ttl).ttlShouldUse % 256), p);
      }
      assert dst in r.node.search;
    }
  }

  /** Forwarding begins a search, or hands the data on once, or does nothing; it stores no route. */
  ghost predicate ForwardsOnce(n: Node, u: set<Addr>, f: Forward, m: Msg) {
    && SearchOrSilence(n, u, f.node, f.sent)
    && f.node.routes == n.routes
    && (forall p <- f.sent :: MsgScoped(p.msg, u))
    && match f.chosen
       case None => f.sent == multiset{} || exists d :: d in u && d !in n.search && d in f.node.search
       case Some(h) => f.node.search == n.search && h in n.peers && f.sent == multiset{Packet(n.pip, h, n.peers[h].pip, m)}
  }

  lemma FailedLookup(n: Node, u: set<Addr>, next: Addr, reason: Reason, m: Msg)
    requires next in u && next !in n.peers
    requires GetRouteOrMaybeSearch(n, next, reason, true, TTL_MAX_ACCEPTED).route == None
    ensures var found := GetRouteOrMaybeSearch(n, next, reason, true, TTL_MAX_ACCEPTED);
            ForwardsOnce(n, u, Forward(found.node, found.sent, None), m)
  {
    var found := GetRouteOrMaybeSearch(n, next, reason, true, TTL_MAX_ACCEPTED);
    LookupSets(n, next, reason, true, TTL_MAX_ACCEPTED, u);
    hide GetRouteOrMaybeSearch;
    if found.sent != multiset{} {
      var p :| p in found.sent;
      assert next !in n.search && next in found.node.search;
    }
  }

  lemma FoundLookup(n: Node, next: Addr, reason: Reason)
    requires next !in n.peers
    ensures var found := GetRouteOrMaybeSearch(n, next, reason, true, TTL_MAX_ACCEPTED);
            found.route.Some? ==> next in n.routes && found == RouteAnswer(n, multiset{}, Some(n.routes[next]))
  {}

  lemma {:induction false} ForwardSets(n: Node, src: Addr, dst: Addr, next: Addr, reason: Reason,
                                       level: nat, ttl: int, nonce: Octets24, blob: Bytes, u: set<Addr>)
    requires level <= 2 && ttl < 256
    requires NodeScoped(n, u) && src in u && dst in u && next in u
    ensures ttl > 0 ==>
              ForwardsOnce(n, u, RouteDetail(n, src, dst, next, reason, level, ttl, nonce, blob), Data(src, dst, ttl, nonce, blob))
    ensures ttl <= 0 ==> RouteDetail(n, src, dst, next, reason, level, ttl, nonce, blob) == Forward(n, multiset{}, None)
    decreases 2 - level
  {
    if ttl <= 0 || n.peers == map[] || next in n.peers || level > 1 {
      DetailCases(n, src, dst, next, reason, level, ttl, nonce, blob);
      hide RouteDetail;
    } else {
      DetailVia(n, src, dst, next, reason, level, ttl, nonce, blob);
      FoundLookup(n, next, reason);
      hide RouteDetail, ForwardsOnce, GetRouteOrMaybeSearch;
      var found := GetRouteOrMaybeSearch(n, next, reason, true, TTL_MAX_ACCEPTED);
      if found.route.Some? {
        ForwardSets(n, src, dst, found.route.value.nexthop, reason, level + 1, ttl, nonce, blob, u);
        var rest := RouteDetail(n, src, dst, found.route.value.nexthop, reason, level + 1, ttl, nonce, blob);
        assert Forward(rest.node, multiset{} + rest.sent, rest.chosen) == rest;
      } else {
        FailedLookup(n, u, next, reason, Data(src, dst, ttl, nonce, blob));
      }
    }
  }


  ghost predicate BeginsSearch(n: Node, u: set<Addr>, n': Node) {
    exists d :: d in u && d !in n.search && d in n'.search
  }

  /** Data that this node cannot decrypt, with TTL left and tables that lead back: a dummy packet returns with that TTL. */
  predicate Bounces(n: Node, sender: Option<Addr>, m: Msg) {
    && m.Data? && sender.Some? && m.dst == n.me && m.src !in n.tunnels
    && m.dttl > 0 && CanForward(n, m.src)
  }

  /** What handling one datagram may do: begin a search, or answer with less than came in. */
  ghost predicate Effect(n: Node, u: set<Addr>, p: Packet, st: Step, bounce: bool) {
    && n.search.Keys <= st.node.search.Keys
    && NodeScoped(st.node, u)
    && (forall q <- st.sent :: MsgScoped(q.msg, u))
    && (bounce ==> st.node.search.Keys == n.search.Keys)
    && (|| BeginsSearch(n, u, st.node)
        || (&& st.node.search.Keys == n.search.Keys
            && Sum(QueryWeight, st.sent) == 0
            && (p.msg.Query?
                || if bounce then Sum(OtherWeight, st.sent) == OtherWeight(p)
                   else Sum(OtherWeight, st.sent) < OtherWeight(p))))
  }

  lemma LookupScoped(n: Node, dst: Addr, reason: Reason, start: bool, ttl: int, u: set<Addr>)
    requires dst in u && NodeScoped(n, u)
    requires forall h <- n.peers :: n.peers[h].hip == h
    ensures NodeScoped(GetRouteOrMaybeSearch(n, dst, reason, start, ttl).node, u)
  {}

  lemma QueryEffect(n: Node, sender: Addr, p: Packet, u: set<Addr>)
    requires p.msg.Query? && p.msg.goal in u && NodeScoped(n, u)
    requires forall h <- n.peers :: n.peers[h].hip == h
    ensures Effect(n, u, p, HandleQuery(n, sender, p.msg.goal, p.msg.ttl), false)
  {
    hide GetRouteOrMaybeSearch, NodeScoped, Effect;
    var goal, requested := p.msg.goal, SignedByte(p.msg.ttl);
    if requested < 1 || sender !in n.peers {
      QuietEffect(n, u, p, n, multiset{});
    } else {
      AnswerEffect(n, goal, Reason(sender, HelpFind), requested - 1, u);
      var answer := GetRouteOrMaybeSearch(n, goal, Reason(sender, HelpFind), true, requested - 1);
      if answer.route.Some? {
        var route := answer.route.value;
        var reply := Packet(n.pip, sender, n.peers[sender].pip, Reply(requested, route.cost, goal, route.pubkey));
        QuietEffect(n, u, p, answer.node, multiset{reply});
        assert answer.sent + multiset{reply} == multiset{reply};
      } else {
        QuietEffect(n, u, p, answer.node, answer.sent);
      }
    }
  }

  /** A query is answered by a search that begins, by one reply, or by nothing. */
  lemma QuietEffect(n: Node, u: set<Addr>, p: Packet, n': Node, sent: multiset<Packet>)
    requires p.msg.Query? && NodeScoped(n', u) && n.search.Keys <= n'.search.Keys
    requires forall q <- sent :: MsgScoped(q.msg, u)
    requires || BeginsSearch(n, u, n')
             || (n'.search.Keys == n.search.Keys && (sent == multiset{} || exists q :: sent == multiset{q} && q.msg.Reply?))
    ensures Effect(n, u, p, Step(n', sent, []), false)
  {
    hide NodeScoped, MsgScoped;
    if sent != multiset{} && !BeginsSearch(n, u, n') {
      var q :| sent == multiset{q} && q.msg.Reply?;
      SumOne(QueryWeight, q);
    }
  }

  lemma AnswerEffect(n: Node, goal: Addr, reason: Reason, ttl: int, u: set<Addr>)
    requires goal in u && NodeScoped(n, u)
    requires forall h <- n.peers :: n.peers[h].hip == h
    ensures var r := GetRouteOrMaybeSearch(n, goal, reason, true, ttl);
            && NodeScoped(r.node, u) && n.search.Keys <= r.node.search.Keys
            && (forall q <- r.sent :: MsgScoped(q.msg, u))
            && (r.route.Some? ==> r.sent == multiset{} && r.node.search == n.search)
            && (BeginsSearch(n, u, r.node) || (r.node.search.Keys == n.search.Keys && r.sent == multiset{}))
  {
    LookupFacts(n, goal, reason, true, ttl);
    LookupScoped(n, goal, reason, true, ttl, u);
    LookupSets(n, goal, reason, true, ttl, u);
    hide GetRouteOrMaybeSearch, NodeScoped;
    var r := GetRouteOrMaybeSearch(n, goal, reason, true, ttl);
    if r.sent != multiset{} {
      var q :| q in r.sent;
      assert goal !in n.search && goal in r.node.search;
    }
  }

  /** Forwarding at most once, with at most the TTL that came in, has the effect of a delivery. */
  lemma OnceIsEffect(n: Node, u: set<Addr>, f: Forward, m: Msg, p: Packet, bounce: bool)
    requires NodeScoped(n, u) && ForwardsOnce(n, u, f, m) && m.Data? && p.msg.Data?
    requires n.search.Keys <= f.node.search.Keys
    requires f.chosen.Some? ==> if bounce then m.dttl == p.msg.dttl else m.dttl < p.msg.dttl
    requires bounce ==> f.chosen.Some?
    ensures Effect(n, u, p, Forwarded(f), bounce)
  {
    if f.chosen.Some? {
      var q := Packet(n.pip, f.chosen.value, n.peers[f.chosen.value].pip, m);
      SumOne(QueryWeight, q);
      SumOne(OtherWeight, q);
    }
  }

  lemma ForwardEffect(n: Node, src: Addr, dst: Addr, reason: Reason, ttl: int, nonce: Octets24, blob: Bytes,
                      p: Packet, u: set<Addr>, bounce: bool)
    requires NodeScoped(n, u) && src in u && dst in u && ttl < 256 && p.msg.Data?
    requires bounce ==> ttl == p.msg.dttl && RouteTop(n, src, dst, reason, ttl, nonce, blob).chosen.Some?
    requires !bounce ==> ttl < p.msg.dttl || RouteTop(n, src, dst, reason, ttl, nonce, blob).chosen.None?
    ensures Effect(n, u, p, Forwarded(RouteTop(n, src, dst, reason, ttl, nonce, blob)), bounce)
  {
    ForwardSets(n, src, dst, dst, reason, 0, ttl, nonce, blob, u);
    ForwardFacts(n, src, dst, dst, reason, 0, ttl, nonce, blob);
    hide RouteDetail, ForwardsOnce;
    if ttl > 0 {
      hide Effect;
      OnceIsEffect(n, u, RouteTop(n, src, dst, reason, ttl, nonce, blob), Data(src, dst, ttl, nonce, blob), p, bounce);
    }
  }

  lemma DataEffect(k: Crypto, n: Node, sender: Addr, p: Packet, u: set<Addr>)
    requires p.msg.Data? && MsgScoped(p.msg, u) && NodeScoped(n, u)
    ensures var m := p.msg;
            Effect(n, u, p, HandleData(k, n, m.src, m.dst, m.dttl, m.nonce, m.blob), Bounces(n, Some(sender), m))
  {
    hide RouteTop;
    var m := p.msg;
    if m.dst == n.me {
      if m.src !in n.tunnels {
        ForwardChoice(n, m.dst, m.src, Reason(ZERO_ADDR, RouteOwnPacket), m.dttl, k.dummyNonce, []);
        ForwardEffect(n, m.dst, m.src, Reason(ZERO_ADDR, RouteOwnPacket), m.dttl, k.dummyNonce, [], p, u,
                      Bounces(n, Some(sender), m));
      }
    } else {
      ForwardEffectRelay(n, p, u);
    }
  }

  lemma ForwardEffectRelay(n: Node, p: Packet, u: set<Addr>)
    requires p.msg.Data? && MsgScoped(p.msg, u) && NodeScoped(n, u)
    ensures var m := p.msg;
            Effect(n, u, p, Forwarded(RouteTop(n, m.src, m.dst, Reason(m.src, RouteOtherPacket), ClampTtl(m.dttl), m.nonce, m.blob)), false)
  {
    var m := p.msg;
    ForwardEffect(n, m.src, m.dst, Reason(m.src, RouteOtherPacket), ClampTtl(m.dttl), m.nonce, m.blob, p, u, false);
  }

  lemma SilentEffect(k: Crypto, n: Node, sender: Option<Addr>, p: Packet, u: set<Addr>)
    requires MsgScoped(p.msg, u) && NodeScoped(n, u)
    requires p.msg.Reply? && sender.Some? ==> sender.value in u
    requires p.msg.Hi? || p.msg.Reply? || sender.None?
    ensures Effect(n, u, p, HandleUdp(k, n, p.from, sender, p.msg), false)
  {
    match p.msg
    case Hi(cred) => SilentHi(k, n, p.from, cred);
    case Reply(_, _, _, _) =>
    case _ =>
  }

  lemma SilentHi(k: Crypto, n: Node, from: Pip, cred: Credentials)
    ensures var st := HandleHi(k, n, from, cred);
            st.sent == multiset{} && st.node.search == n.search && st.node.routes == n.routes
  {}

  lemma UdpEffect(k: Crypto, n: Node, sender: Option<Addr>, p: Packet, u: set<Addr>)
    requires MsgScoped(p.msg, u) && NodeScoped(n, u)
    requires forall h <- n.peers :: n.peers[h].hip == h
    requires p.msg.Reply? && sender.Some? ==> sender.value in u
    ensures Effect(n, u, p, HandleUdp(k, n, p.from, sender, p.msg), Bounces(n, sender, p.msg))
  {
    hide HandleQuery, HandleData, HandleHi, HandleReply, Effect, RouteTop, NodeScoped;
    if p.msg.Hi? || p.msg.Reply? || sender.None? {
      SilentEffect(k, n, sender, p, u);
    } else if p.msg.Query? {
      QueryEffect(n, sender.value, p, u);
    } else {
      DataEffect(k, n, sender.value, p, u);
    }
  }

  // ---------------------------------------------------------------- every delivery but a bounce decreases the measure

  lemma UnsearchedShrinks(nodes: Nodes, u: set<Addr>, x: Addr, n: Node)
    requires x in nodes && nodes[x].search.Keys <= n.search.Keys
    ensures BeginsSearch(nodes[x], u, n) ==> |Unsearched(nodes[x := n], u)| < |Unsearched(nodes, u)|
    ensures nodes[x].search.Keys == n.search.Keys ==> Unsearched(nodes[x := n], u) == Unsearched(nodes, u)
  {
    var before, after := Unsearched(nodes, u), Unsearched(nodes[x := n], u);
    assert after <= before;
    if BeginsSearch(nodes[x], u, n) {
      var d :| d in u && d !in nodes[x].search && d in n.search;
      assert (x, d) in before && (x, d) !in after;
      SmallerSet(after, before);
    }
  }

  lemma {:induction false} SmallerSet<T>(a: set<T>, b: set<T>)
    requires a < b
    ensures |a| < |b|
  {
    assert |b - a| + |a| == |b| by {
      assert b == (b - a) + a && (b - a) !! a;
    }
    assert b - a != {};
  }

  lemma SumsAfter(w: Packet -> nat, flight: multiset<Packet>, p: Packet, sent: multiset<Packet>)
    requires p in flight
    ensures Sum(w, flight - multiset{p} + sent) == Sum(w, flight) - w(p) + Sum(w, sent)
  {
    SumRemove(w, flight, p);
    SumUnion(w, flight - multiset{p}, sent);
  }

  /** The event is a delivery that bounces a dummy packet back to a node without a tunnel. */
  predicate BounceEvent(s: Net, e: Event) {
    e.Deliver? && e.to in s.nodes && Bounces(s.nodes[e.to], e.sender, e.packet.msg)
  }

  lemma DeliveryEffect(k: Crypto, s: Net, e: Event, u: set<Addr>)
    requires Inv(k, s) && Scoped(s, u) && Enabled(s, e) && e.Deliver?
    ensures Effect(s.nodes[e.to], u, e.packet, StepOf(k, s, e), BounceEvent(s, e))
  {
    var y := SenderIsBacker(k, s, e.to, e.packet, e.sender);
    assert NodeScoped(s.nodes[e.to], u);
    UdpEffect(k, s.nodes[e.to], e.sender, e.packet, u);
  }

  lemma BounceIsData(s: Net, e: Event)
    ensures BounceEvent(s, e) ==> e.packet.msg.Data?
  {}

  lemma ScopeKept(k: Crypto, s: Net, e: Event, u: set<Addr>)
    requires Inv(k, s) && Scoped(s, u) && Enabled(s, e) && e.Deliver?
    ensures Scoped(Apply(k, s, e), u)
  {
    DeliveryEffect(k, s, e, u);
    hide Handle, Inv, NodeScoped, BounceEvent;
  }

  /** What the effect of one datagram at `x` does to the measure. */
  lemma EffectOnMeasure(nodes: Nodes, flight: multiset<Packet>, x: Addr, p: Packet, st: Step, u: set<Addr>, bounce: bool)
    requires x in nodes && p in flight && Effect(nodes[x], u, p, st, bounce) && (bounce ==> p.msg.Data?)
    ensures var before, after := MeasureOf(Net(nodes, flight), u), MeasureOf(Net(nodes[x := st.node], flight - multiset{p} + st.sent), u);
            (bounce ==> after == before) && (!bounce ==> Less(after, before))
  {
    UnsearchedShrinks(nodes, u, x, st.node);
    SumsAfter(QueryWeight, flight, p, st.sent);
    SumsAfter(OtherWeight, flight, p, st.sent);
    hide Unsearched, Sum, NodeScoped, MsgScoped;
  }

  /** Every delivery strictly decreases the measure, except that a bounce leaves it as it is. */
  lemma DeliveryDecreases(k: Crypto, s: Net, e: Event, u: set<Addr>)
    requires Inv(k, s) && Scoped(s, u) && Enabled(s, e) && e.Deliver?
    ensures Scoped(Apply(k, s, e), u)
    ensures BounceEvent(s, e) <==> !Less(MeasureOf(Apply(k, s, e), u), MeasureOf(s, u))
    ensures BounceEvent(s, e) ==> MeasureOf(Apply(k, s, e), u) == MeasureOf(s, u)
  {
    hide Handle, Bounces, Inv, Scoped, MeasureOf, Effect, BounceEvent;
    ScopeKept(k, s, e, u);
    DeliveryEffect(k, s, e, u);
    BounceIsData(s, e);
    EffectOnMeasure(s.nodes, s.flight, e.to, e.packet, StepOf(k, s, e), u, BounceEvent(s, e));
  }

  lemma LossDecreases(k: Crypto, s: Net, e: Event, u: set<Addr>)
    requires Scoped(s, u) && Enabled(s, e) && e.Lose?
    ensures Scoped(Apply(k, s, e), u)
    ensures Less(MeasureOf(Apply(k, s, e), u), MeasureOf(s, u))
  {
    SumRemove(QueryWeight, s.flight, e.lost);
    SumRemove(OtherWeight, s.flight, e.lost);
  }

  /** A finite scope of a state: its nodes, stored next hops, and the addresses asked for or sent to. */
  ghost function ScopeOf(s: Net): set<Addr> {
    s.nodes.Keys
    + (set x, d | x in s.nodes && d in s.nodes[x].routes :: s.nodes[x].routes[d].nexthop)
    + (set p | p in s.flight && p.msg.Query? :: p.msg.goal)
    + (set p | p in s.flight && p.msg.Data? :: p.msg.src)
    + (set p | p in s.flight && p.msg.Data? :: p.msg.dst)
  }

  lemma ScopeOfIsScope(s: Net)
    ensures Scoped(s, ScopeOf(s))
  {
    forall x | x in s.nodes ensures NodeScoped(s.nodes[x], ScopeOf(s)) {}
    forall p | p in s.flight ensures MsgScoped(p.msg, ScopeOf(s)) {}
  }

  /** An infinite run of deliveries and losses, without new input at any node, must contain a bounce. */
  lemma OnlyBouncesGoOnForever(k: Crypto, s: nat -> Net, e: nat -> Event)
    requires Inv(k, s(0))
    requires forall i: nat :: (e(i).Deliver? || e(i).Lose?) && Enabled(s(i), e(i)) && s(i + 1) == Apply(k, s(i), e(i))
    ensures exists i: nat :: BounceEvent(s(i), e(i))
  {
    if forall i: nat :: !BounceEvent(s(i), e(i)) {
      ScopeOfIsScope(s(0));
      NoEndlessDescent(k, s, e, ScopeOf(s(0)), 0);
    }
  }

  lemma {:induction false} NoEndlessDescent(k: Crypto, s: nat -> Net, e: nat -> Event, u: set<Addr>, i: nat)
    requires Inv(k, s(i)) && Scoped(s(i), u)
    requires forall i: nat :: (e(i).Deliver? || e(i).Lose?) && Enabled(s(i), e(i)) && s(i + 1) == Apply(k, s(i), e(i))
    requires forall i: nat :: !BounceEvent(s(i), e(i))
    ensures false
    decreases MeasureOf(s(i), u).unsearched, MeasureOf(s(i), u).queries, MeasureOf(s(i), u).others
  {
    hide Apply, MeasureOf, Inv, Scoped, BounceEvent;
    assert Enabled(s(i), e(i)) && s(i + 1) == Apply(k, s(i), e(i)) && !BounceEvent(s(i), e(i));
    InvKept(k, s(i), e(i));
    if e(i).Deliver? {
      DeliveryDecreases(k, s(i), e(i), u);
    } else {
      LossDecreases(k, s(i), e(i), u);
    }
    NoEndlessDescent(k, s, e, u, i + 1);
  }

  /** Bounces do go on forever: two peers without a tunnel to each other return one dummy packet for ever. */
  lemma DummyPacketReturns(k: Crypto, s: Net, a: Addr, b: Addr, ttl: Byte)
    requires a != b && a in s.nodes && b in s.nodes && s.nodes[a].me == a && s.nodes[b].me == b && ttl >= 1
    requires b in s.nodes[a].peers && s.nodes[a].peers[b].pip == s.nodes[b].pip && b !in s.nodes[a].tunnels
    requires a in s.nodes[b].peers && s.nodes[b].peers[a].pip == s.nodes[a].pip && a !in s.nodes[b].tunnels
    requires DummyTo(k, s, a, b, ttl) in s.flight
    ensures var there := Deliver(b, DummyTo(k, s, a, b, ttl), Some(a));
            var back := Deliver(a, DummyTo(k, s, b, a, ttl), Some(b));
            && Enabled(s, there) && BounceEvent(s, there)
            && Enabled(Apply(k, s, there), back) && BounceEvent(Apply(k, s, there), back)
            && Apply(k, Apply(k, s, there), back) == s
  {
    var there, p, q := Deliver(b, DummyTo(k, s, a, b, ttl), Some(a)), DummyTo(k, s, a, b, ttl), DummyTo(k, s, b, a, ttl);
    BounceStep(k, s, a, b, ttl);
    var s1 := Apply(k, s, there);
    assert s1 == Net(s.nodes, s.flight - multiset{p} + multiset{q});
    BounceStep(k, s1, b, a, ttl);
    assert s.flight - multiset{p} + multiset{q} - multiset{q} + multiset{p} == s.flight;
  }

  /** Such a state is reached: two nodes add each other as peers, and one reads a frame for the other from TUN. */
  lemma DummyIsReached(k: Crypto, s: Net, a: Addr, b: Addr, frame: Bytes, nonce: Octets24) returns (run: seq<Event>)
    requires Initial(k, s) && a != b && a in s.nodes && b in s.nodes && b.octets[0] == 0xFD
    requires s.nodes[a].peers == map[] && s.nodes[b].peers == map[]
    requires b !in s.nodes[a].tunnels && a !in s.nodes[b].tunnels
    requires |frame| >= 44 && FrameSource(frame) == a && FrameDestination(frame) == b
    ensures Legal(k, s, run)
    ensures var s' := Run(k, s, run);
            && a in s'.nodes && b in s'.nodes && s'.nodes[a].me == a && s'.nodes[b].me == b
            && b in s'.nodes[a].peers && s'.nodes[a].peers[b].pip == s'.nodes[b].pip && b !in s'.nodes[a].tunnels
            && a in s'.nodes[b].peers && s'.nodes[b].peers[a].pip == s'.nodes[a].pip && a !in s'.nodes[b].tunnels
            && DummyTo(k, s', a, b, 5) in s'.flight
  {
    var e1 := Local(a, AddPeerOp(PeerRef(s.nodes[b].pip, b)));
    var s1 := Added(k, s, a, b);
    var e2 := Local(b, AddPeerOp(PeerRef(s1.nodes[a].pip, a)));
    var s2 := Added(k, s1, b, a);
    var e3 := Local(a, FromTun(frame, nonce));
    DummySent(k, s2, a, b, frame, nonce);
    run := [e1, e2, e3];
    ThreeEvents(k, s, e1, e2, e3);
  }

  lemma ThreeEvents(k: Crypto, s: Net, e1: Event, e2: Event, e3: Event)
    requires Enabled(s, e1) && Enabled(Apply(k, s, e1), e2) && Enabled(Apply(k, Apply(k, s, e1), e2), e3)
    ensures Legal(k, s, [e1, e2, e3]) && Run(k, s, [e1, e2, e3]) == Apply(k, Apply(k, Apply(k, s, e1), e2), e3)
  {
    hide Apply, Enabled;
    var run := [e1, e2, e3];
    assert run[1..] == [e2, e3] && [e2, e3][1..] == [e3] && [e3][1..] == [];
    var s1 := Apply(k, s, e1);
    var s2 := Apply(k, s1, e2);
    var s3 := Apply(k, s2, e3);
    assert Legal(k, s3, []) && Legal(k, s2, [e3]) && Legal(k, s1, [e2, e3]);
    assert Run(k, s3, []) == s3 && Run(k, s2, [e3]) == s3 && Run(k, s1, [e2, e3]) == s3;
  }

  /** One node adds another as a peer. */
  lemma Added(k: Crypto, s: Net, x: Addr, y: Addr) returns (s': Net)
    requires x in s.nodes && y in s.nodes && x != y && y !in s.nodes[x].peers && PipOk(s.nodes, y, s.nodes[y].pip)
    ensures Enabled(s, Local(x, AddPeerOp(PeerRef(s.nodes[y].pip, y))))
    ensures s' == Apply(k, s, Local(x, AddPeerOp(PeerRef(s.nodes[y].pip, y))))
    ensures s'.flight == s.flight && s'.nodes.Keys == s.nodes.Keys
    ensures forall z <- s.nodes :: SameIdentity(s.nodes[z], s'.nodes[z]) && s'.nodes[z].tunnels == s.nodes[z].tunnels
    ensures forall z <- s.nodes | z != x :: s'.nodes[z] == s.nodes[z]
    ensures s'.nodes[x].peers == s.nodes[x].peers[y := Peer(s.nodes[y].pip, y, None)]
  {
    s' := Apply(k, s, Local(x, AddPeerOp(PeerRef(s.nodes[y].pip, y))));
    assert s.flight + multiset{} == s.flight;
  }

  /** A frame for a peer without a tunnel makes a dummy packet. */
  lemma DummySent(k: Crypto, s: Net, a: Addr, b: Addr, frame: Bytes, nonce: Octets24)
    requires a in s.nodes && b in s.nodes && b.octets[0] == 0xFD && b in s.nodes[a].peers && b !in s.nodes[a].tunnels
    requires s.nodes[a].peers[b].pip == s.nodes[b].pip
    requires |frame| >= 44 && FrameSource(frame) == a && FrameDestination(frame) == b
    ensures var e := Local(a, FromTun(frame, nonce));
            && Enabled(s, e) && Apply(k, s, e).nodes == s.nodes
            && DummyTo(k, s, a, b, 5) in Apply(k, s, e).flight
  {
    var e, n := Local(a, FromTun(frame, nonce)), s.nodes[a];
    assert RouteTop(n, a, b, Reason(ZERO_ADDR, RouteOwnPacket), 5, k.dummyNonce, [])
        == Forward(n, multiset{DummyTo(k, s, a, b, 5)}, Some(b));
    assert StepOf(k, s, e) == Step(n, multiset{DummyTo(k, s, a, b, 5)}, []);
    assert s.nodes[a := n] == s.nodes;
  }

  ghost function DummyTo(k: Crypto, s: Net, a: Addr, b: Addr, ttl: Byte): Packet
    requires a in s.nodes && b in s.nodes
  {
    Packet(s.nodes[a].pip, b, s.nodes[b].pip, Data(a, b, ttl, k.dummyNonce, []))
  }

  lemma BounceStep(k: Crypto, s: Net, a: Addr, b: Addr, ttl: Byte)
    requires a in s.nodes && b in s.nodes && s.nodes[b].me == b && ttl >= 1
    requires a in s.nodes[b].peers && s.nodes[b].peers[a].pip == s.nodes[a].pip && a !in s.nodes[b].tunnels
    requires DummyTo(k, s, a, b, ttl) in s.flight
    ensures var e := Deliver(b, DummyTo(k, s, a, b, ttl), Some(a));
            && Enabled(s, e) && BounceEvent(s, e)
            && Apply(k, s, e) == Net(s.nodes, s.flight - multiset{e.packet} + multiset{DummyTo(k, s, b, a, ttl)})
  {
    var e, n := Deliver(b, DummyTo(k, s, a, b, ttl), Some(a)), s.nodes[b];
    assert RouteTop(n, b, a, Reason(ZERO_ADDR, RouteOwnPacket), ttl, k.dummyNonce, [])
           == Forward(n, multiset{DummyTo(k, s, b, a, ttl)}, Some(a));
    assert StepOf(k, s, e) == Step(n, multiset{DummyTo(k, s, b, a, ttl)}, []);
    assert s.nodes[b := n] == s.nodes;
  }
}
