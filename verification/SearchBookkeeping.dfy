/** The TTL that a search will use, and the byte it is narrowed to. */
module SearchBookkeeping {
  import opened Basics
  import opened NodeModel
  import opened NodeFacts

  datatype Request = Request(reason: Reason, ttl: int)

  function AddAll(s: Search, requests: seq<Request>): Search
    decreases |requests|
  {
    if requests == [] then s
    else AddRequest(AddAll(s, requests[..|requests| - 1]), requests[|requests| - 1].reason, requests[|requests| - 1].ttl)
  }

  /** `top` is the larger of `floor` and the greatest TTL among the requests that `p` selects. */
  ghost predicate IsGreatest(top: int, floor: int, requests: seq<Request>, p: Reason -> bool) {
    && floor <= top && (forall r <- requests | p(r.reason) :: r.ttl <= top)
    && (top == floor || exists r <- requests :: p(r.reason) && r.ttl == top)
  }

  /** After any requests, the search uses the larger of 5 and the greatest TTL asked for. */
  lemma {:induction false} ShouldUseIsGreatest(requests: seq<Request>)
    ensures IsGreatest(AddAll(NewSearch(), requests).ttlShouldUse, 5, requests, _ => true)
    decreases |requests|
  {
    if requests != [] {
      var init, last := requests[..|requests| - 1], requests[|requests| - 1];
      ShouldUseIsGreatest(init);
      assert requests == init + [last];
      assert forall r :: r in requests <==> r in init || r == last;
    }
  }

  /** The record of a requester is the greatest TTL that it has asked with, and only requesters have one. */
  lemma {:induction false} DetailIsGreatest(requests: seq<Request>, reason: Reason)
    ensures var s := AddAll(NewSearch(), requests);
            && (reason in s.requests <==> exists r <- requests :: r.reason == reason)
            && (reason in s.requests ==>
                  && (forall r <- requests | r.reason == reason :: r.ttl <= s.requests[reason])
                  && (exists r <- requests :: r.reason == reason && r.ttl == s.requests[reason]))
    decreases |requests|
  {
    if requests != [] {
      var init, last := requests[..|requests| - 1], requests[|requests| - 1];
      DetailIsGreatest(init, reason);
      assert requests == init + [last];
      assert forall r :: r in requests <==> r in init || r == last;
    }
  }

  // ---------------------------------------------------------------- the narrowing in `execute`

  /** `m_ttl_should_use` fits the byte it is narrowed to. */
  ghost predicate SearchesOk(n: Node) {
    forall d <- n.search :: 5 <= n.search[d].ttlShouldUse <= 126
  }

  lemma LookupNarrows(n: Node, dst: Addr, reason: Reason, start: bool, ttl: int)
    requires SearchesOk(n) && ttl <= 126
    ensures SearchesOk(GetRouteOrMaybeSearch(n, dst, reason, start, ttl).node)
  {}

  lemma {:induction false} ForwardNarrows(n: Node, src: Addr, dst: Addr, next: Addr, reason: Reason,
                                          level: nat, ttl: int, nonce: Octets24, blob: Bytes)
    requires SearchesOk(n) && level <= 2 && ttl < 256
    ensures SearchesOk(RouteDetail(n, src, dst, next, reason, level, ttl, nonce, blob).node)
    decreases 2 - level
  {
    if ttl <= 0 || n.peers == map[] || next in n.peers || level > 1 {
    } else {
      LookupNarrows(n, next, reason, true, TTL_MAX_ACCEPTED);
      var found := GetRouteOrMaybeSearch(n, next, reason, true, TTL_MAX_ACCEPTED);
      hide SearchesOk;
      if found.route.Some? {
        ForwardNarrows(found.node, src, dst, found.route.value.nexthop, reason, level + 1, ttl, nonce, blob);
      }
    }
  }

  lemma TunNarrows(k: Crypto, n: Node, frame: Bytes, nonce: Octets24)
    requires SearchesOk(n)
    ensures SearchesOk(HandleTun(k, n, frame, nonce).node)
  {
    hide SearchesOk, RouteDetail;
    if |frame| >= 44 {
      var src, dst, reason := FrameSource(frame), FrameDestination(frame), Reason(ZERO_ADDR, RouteOwnPacket);
      ForwardNarrows(n, src, dst, dst, reason, 0, DATA_ROUTE_TTL, k.dummyNonce, []);
      if dst in n.tunnels {
        ForwardNarrows(n, src, dst, dst, reason, 0, DATA_ROUTE_TTL, nonce, k.box(n.tunnels[dst], nonce, Cleartext(frame)));
      }
    }
  }

  lemma DataNarrows(k: Crypto, n: Node, src: Addr, dst: Addr, ttl: Byte, nonce: Octets24, blob: Bytes)
    requires SearchesOk(n)
    ensures SearchesOk(HandleData(k, n, src, dst, ttl, nonce, blob).node)
  {
    hide SearchesOk, RouteDetail;
    ForwardNarrows(n, dst, src, src, Reason(ZERO_ADDR, RouteOwnPacket), 0, ttl, k.dummyNonce, []);
    ForwardNarrows(n, src, dst, dst, Reason(src, RouteOtherPacket), 0, ClampTtl(ttl), nonce, blob);
  }

  lemma QueryNarrows(n: Node, sender: Addr, goal: Addr, ttl: Byte)
    requires SearchesOk(n)
    ensures SearchesOk(HandleQuery(n, sender, goal, ttl).node)
  {
    hide SearchesOk, GetRouteOrMaybeSearch;
    LookupNarrows(n, goal, Reason(sender, HelpFind), true, SignedByte(ttl) - 1);
  }

  lemma UdpNarrows(k: Crypto, n: Node, from: Pip, sender: Option<Addr>, msg: Msg)
    requires SearchesOk(n)
    ensures SearchesOk(HandleUdp(k, n, from, sender, msg).node)
  {
    hide HandleQuery, HandleData;
    if sender.Some? && msg.Query? {
      QueryNarrows(n, sender.value, msg.goal, msg.ttl);
    } else if sender.Some? && msg.Data? {
      DataNarrows(k, n, msg.src, msg.dst, msg.dttl, msg.nonce, msg.blob);
    }
  }

  /** Whatever arrives, a search record stays between 5 and 126, so the narrowing to a byte loses nothing. */
  lemma NarrowingNeverFails(k: Crypto, n: Node, input: Input)
    requires SearchesOk(n)
    ensures SearchesOk(Handle(k, n, input).node)
    ensures forall p <- Handle(k, n, input).sent | p.msg.Query? ::
              p.msg.goal in Handle(k, n, input).node.search && p.msg.ttl == Handle(k, n, input).node.search[p.msg.goal].ttlShouldUse
  {
    hide HandleTun, HandleUdp;
    match input {
      case FromTun(frame, nonce) => TunNarrows(k, n, frame, nonce);
      case FromUdp(from, sender, msg) => UdpNarrows(k, n, from, sender, msg);
      case _ =>
    }
    HandleFacts(k, n, input);
  }

  // ---------------------------------------------------------------- the order of requesters

  /** The comparison that the source gives to its map of requesters, for any order on addresses and modes. */
  predicate ReasonLess(less: (Addr, Addr) -> bool, modeLess: (SearchMode, SearchMode) -> bool, a: Reason, b: Reason) {
    less(a.his, b.his) || modeLess(a.mode, b.mode)
  }

  /** A total order in the strict sense. */
  ghost predicate TotalOrder<T(!new)>(less: (T, T) -> bool) {
    && (forall a, b :: !(less(a, b) && less(b, a)))
    && (forall a, b, c :: less(a, b) && less(b, c) ==> less(a, c))
    && (forall a, b :: a == b || less(a, b) || less(b, a))
  }

  /** The comparison orders these requesters totally, as a map needs it of its keys. */
  ghost predicate Orders(less: (Addr, Addr) -> bool, modeLess: (SearchMode, SearchMode) -> bool, keys: set<Reason>) {
    && (forall a <- keys, b <- keys :: !(ReasonLess(less, modeLess, a, b) && ReasonLess(less, modeLess, b, a)))
    && (forall a <- keys, b <- keys, c <- keys ::
          ReasonLess(less, modeLess, a, b) && ReasonLess(less, modeLess, b, c) ==> ReasonLess(less, modeLess, a, c))
    && (forall a <- keys, b <- keys :: a == b || ReasonLess(less, modeLess, a, b) || ReasonLess(less, modeLess, b, a))
  }

  /** Address and mode say the same about which of the two comes first. */
  predicate Agree(less: (Addr, Addr) -> bool, modeLess: (SearchMode, SearchMode) -> bool, a: Reason, b: Reason) {
    !(less(a.his, b.his) && modeLess(b.mode, a.mode)) && !(less(b.his, a.his) && modeLess(a.mode, b.mode))
  }

  /**
   * The map of requesters behaves as one keyed by equality exactly on requesters of whom no two disagree: there the
   * comparison is a total order, and with any disagreeing pair it is none.
   */
  lemma OrdersIffAgreeing(less: (Addr, Addr) -> bool, modeLess: (SearchMode, SearchMode) -> bool, keys: set<Reason>)
    requires TotalOrder(less) && TotalOrder(modeLess)
    ensures Orders(less, modeLess, keys) <==> forall a <- keys, b <- keys :: Agree(less, modeLess, a, b)
  {
    if forall a <- keys, b <- keys :: Agree(less, modeLess, a, b) {
      forall a, b | a in keys && b in keys
        ensures !(ReasonLess(less, modeLess, a, b) && ReasonLess(less, modeLess, b, a))
      {
        assert Agree(less, modeLess, a, b);
      }
      forall a, b, c | a in keys && b in keys && c in keys
                       && ReasonLess(less, modeLess, a, b) && ReasonLess(less, modeLess, b, c)
        ensures ReasonLess(less, modeLess, a, c)
      {
        assert Agree(less, modeLess, a, b) && Agree(less, modeLess, b, c);
      }
    } else {
      var a, b :| a in keys && b in keys && !Agree(less, modeLess, a, b);
      assert ReasonLess(less, modeLess, a, b) && ReasonLess(less, modeLess, b, a);
    }
  }

  /** Two requesters each come before the other exactly when address and mode disagree: the comparison is not an order. */
  lemma ReasonOrderConflict(less: (Addr, Addr) -> bool, modeLess: (SearchMode, SearchMode) -> bool, a: Reason, b: Reason)
    requires !(less(a.his, b.his) && less(b.his, a.his))
    requires !(modeLess(a.mode, b.mode) && modeLess(b.mode, a.mode))
    ensures ReasonLess(less, modeLess, a, b) && ReasonLess(less, modeLess, b, a)
            <==> (less(a.his, b.his) && modeLess(b.mode, a.mode)) || (less(b.his, a.his) && modeLess(a.mode, b.mode))
  {}
}
