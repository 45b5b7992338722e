/** From one TUN device to another, through a network that goes on with everything else meanwhile. */
module TunToTun {
  import opened Basics
  import opened NodeModel
  import opened NodeFacts
  import opened Network
  import opened LoopFreedom
  import opened Delivery
  import opened ForwardingPath
  import EndToEnd

  /** Some event of the run writes exactly these frames at the node. */
  ghost predicate Writes(k: Crypto, s: Net, run: seq<Event>, d: Addr, frames: seq<Bytes>)
    requires Legal(k, s, run)
    decreases |run|
  {
    && run != []
    && ((run[0].Deliver? && run[0].to == d && StepOf(k, s, run[0]).tun == frames)
        || Writes(k, Apply(k, s, run[0]), run[1..], d, frames))
  }

  /** The destination can open the data, and what it then writes is `frames`. */
  ghost predicate Opens(k: Crypto, nodes: Nodes, m: Msg, frames: seq<Bytes>) {
    && m.Data? && m.dst in nodes && m.src in nodes[m.dst].tunnels
    && match k.unbox(nodes[m.dst].tunnels[m.src], m.nonce, m.blob)
       case None => false
       case Some(clear) => TunFrame(m.src, m.dst, clear) == frames
  }

  /** Tunnels are write-once. */
  lemma TunnelsKept(k: Crypto, n: Node, input: Input, h: Addr)
    requires h in n.tunnels
    ensures h in Handle(k, n, input).node.tunnels && Handle(k, n, input).node.tunnels[h] == n.tunnels[h]
  {
    hide HandleTun, HandleQuery, HandleData;
    match input
    case FromTun(frame, nonce) => TunFacts(k, n, frame, nonce);
    case FromUdp(from, sender, msg) =>
      if msg.Query? || msg.Data? {
        UdpFacts(k, n, from, sender, msg);
      }
    case _ =>
  }

  lemma OpensKept(k: Crypto, s: Net, e: Event, m: Msg, frames: seq<Bytes>)
    requires Enabled(s, e) && Opens(k, s.nodes, m, frames)
    ensures Opens(k, Apply(k, s, e).nodes, m, frames)
  {
    hide Handle, TunFrame;
    if Acts(e) && Actor(e) == m.dst {
      TunnelsKept(k, s.nodes[m.dst], EventInput(e), m.src);
    }
  }

  lemma SamePayloadOpens(k: Crypto, nodes: Nodes, m: Msg, m': Msg, frames: seq<Bytes>)
    requires SamePayload(m', m) && Opens(k, nodes, m, frames)
    ensures Opens(k, nodes, m', frames)
  {
    assert m'.(dttl := 0) == m.(dttl := 0);
  }

  /** A packet under way that reaches its destination is opened and written there. */
  lemma ArrivalWrites(k: Crypto, s: Net, e: Event, frames: seq<Bytes>)
    requires Acquainted(k, s) && Enabled(s, e) && e.Deliver? && OnTheWay(s.nodes, e.packet)
    requires e.to == e.packet.msg.dst && Opens(k, s.nodes, e.packet.msg, frames)
    ensures StepOf(k, s, e).tun == frames
  {
    hide RouteTop, Acquainted, TunFrame;
    var z, y :| OnTheWayTo(s.nodes, e.packet, z, y);
    ArrivalIsRecognised(k, s, e.packet, z, y, e);
    OpenedData(k, s.nodes[z], e.packet.from, e.sender.value, e.packet.msg);
  }

  lemma OpenedData(k: Crypto, n: Node, from: Pip, h: Addr, m: Msg)
    requires m.Data? && m.dst == n.me && m.src in n.tunnels && k.unbox(n.tunnels[m.src], m.nonce, m.blob).Some?
    ensures HandleUdp(k, n, from, Some(h), m).tun
         == TunFrame(m.src, m.dst, k.unbox(n.tunnels[m.src], m.nonce, m.blob).value)
  {}

  /** One event writes the frames, or leaves a copy of the data under way. */
  lemma WrittenNow(k: Crypto, s: Net, e: Event, m: Msg, frames: seq<Bytes>)
    requires Acquainted(k, s) && Enabled(s, e) && m.Data? && NoPeerOps(e, m.dst)
    requires Confirmed(s.nodes, m.dst) && Underway(s, m)
    requires Opens(k, s.nodes, m, frames)
    requires !(e.Lose? && SamePayload(e.lost.msg, m))
    ensures (e.Deliver? && e.to == m.dst && StepOf(k, s, e).tun == frames) || Underway(Apply(k, s, e), m)
  {
    hide Handle, Acquainted, OnTheWay, Confirmed, Opens;
    var p :| p in s.flight && SamePayload(p.msg, m) && OnTheWay(s.nodes, p);
    if e.Deliver? && e.packet == p {
      if e.to == p.msg.dst {
        SamePayloadOpens(k, s.nodes, m, p.msg, frames);
        ArrivalWrites(k, s, e, frames);
      } else {
        var q := NextLeg(k, s, e);
        assert SamePayload(q.msg, m);
      }
    } else {
      StaysOnTheWay(k, s, e, p);
      assert p in Apply(k, s, e).flight;
    }
  }

  lemma {:induction false} WrittenOrUnderway(k: Crypto, s: Net, run: seq<Event>, m: Msg, frames: seq<Bytes>)
    requires Acquainted(k, s) && Legal(k, s, run) && m.Data? && Confirmed(s.nodes, m.dst) && Underway(s, m)
    requires Opens(k, s.nodes, m, frames)
    requires forall e <- run :: NoPeerOps(e, m.dst) && !(e.Lose? && SamePayload(e.lost.msg, m))
    ensures Writes(k, s, run, m.dst, frames) || Underway(Run(k, s, run), m)
    decreases |run|
  {
    hide Handle, Acquainted, Confirmed, Opens, Underway, SamePayload;
    if run != [] {
      var e := run[0];
      WrittenNow(k, s, e, m, frames);
      if Underway(Apply(k, s, e), m) {
        AcquaintedKept(k, s, e);
        ConfirmedKept(k, s, e, m.dst);
        OpensKept(k, s, e, m, frames);
        WrittenOrUnderway(k, Apply(k, s, e), run[1..], m, frames);
      }
    }
  }

  /**
   * A frame read from TUN whose path has at most five sends: whatever the network does next, as long as no user removes
   * peers or adds the destination as one and no copy of the frame is lost, it has been written to the destination's TUN
   * device unchanged, or a copy of it is still under way with enough TTL left.
   */
  lemma FrameReachesTun(k: Crypto, s: Net, a: Addr, frame: Bytes, nonce: Octets24, n: nat, run: seq<Event>) returns (m: Msg)
    requires Acquainted(k, s) && a in s.nodes && |frame| >= 44 && frame[28] == 0xFD && SupportedProtocol(frame[4..])
    requires n <= 5 && Path(s.nodes, a, FrameDestination(frame), n) && Confirmed(s.nodes, FrameDestination(frame))
    requires FrameDestination(frame) in s.nodes[a].tunnels && FrameDestination(frame) in s.nodes
    requires var d, dst := s.nodes[FrameDestination(frame)], FrameDestination(frame);
             && FrameSource(frame) in d.tunnels
             && forall c: Bytes ::
                  k.unbox(d.tunnels[FrameSource(frame)], nonce, k.box(s.nodes[a].tunnels[dst], nonce, c)) == Some(c)
    requires Legal(k, Apply(k, s, Local(a, FromTun(frame, nonce))), run)
    requires var dst := FrameDestination(frame);
             var sent := Data(FrameSource(frame), dst, 5, nonce, k.box(s.nodes[a].tunnels[dst], nonce, Cleartext(frame)));
             forall e <- run :: NoPeerOps(e, dst) && !(e.Lose? && SamePayload(e.lost.msg, sent))
    ensures m.Data? && m.src == FrameSource(frame) && m.dst == FrameDestination(frame)
    ensures var s' := Apply(k, s, Local(a, FromTun(frame, nonce)));
            Writes(k, s', run, FrameDestination(frame), [TUN_HEADER + frame[4..]]) || Underway(Run(k, s', run), m)
  {
    hide Acquainted, Confirmed, OnTheWay, TunFrame, Cleartext, SupportedProtocol, FrameSource, FrameDestination, Handle;
    var e := Local(a, FromTun(frame, nonce));
    var src, dst := FrameSource(frame), FrameDestination(frame);
    var frames := [TUN_HEADER + frame[4..]];
    m := Data(src, dst, 5, nonce, k.box(s.nodes[a].tunnels[dst], nonce, Cleartext(frame)));
    EndToEnd.FrameRestored(frame);
    assert Opens(k, s.nodes, m, frames);
    LaunchedAs(k, s, a, frame, nonce, n);
    AcquaintedKept(k, s, e);
    ConfirmedKept(k, s, e, dst);
    OpensKept(k, s, e, m, frames);
    WrittenOrUnderway(k, Apply(k, s, e), run, m, frames);
  }

  /** With a tunnel to the destination, what is under way is the encrypted frame. */
  lemma LaunchedAs(k: Crypto, s: Net, a: Addr, frame: Bytes, nonce: Octets24, n: nat)
    requires Acquainted(k, s) && a in s.nodes && |frame| >= 44 && frame[28] == 0xFD
    requires n <= 5 && Path(s.nodes, a, FrameDestination(frame), n) && FrameDestination(frame) in s.nodes[a].tunnels
    ensures var s', dst := Apply(k, s, Local(a, FromTun(frame, nonce))), FrameDestination(frame);
            Underway(s', Data(FrameSource(frame), dst, 5, nonce, k.box(s.nodes[a].tunnels[dst], nonce, Cleartext(frame))))
  {
    hide RouteTop, Acquainted, OnTheWay, Cleartext;
    var src, dst, reason := FrameSource(frame), FrameDestination(frame), Reason(ZERO_ADDR, RouteOwnPacket);
    var e := Local(a, FromTun(frame, nonce));
    var blob := k.box(s.nodes[a].tunnels[dst], nonce, Cleartext(frame));
    var q := HandedOn(k, s, a, src, dst, reason, 5, n, nonce, blob);
    SentAlone(k, s, e, q);
    assert SamePayload(q.msg, Data(src, dst, 5, nonce, blob));
  }
}
