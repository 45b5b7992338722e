/**
 * The packet that leaves one node's TUN device is the packet that enters another's: through encryption, the wire format,
 * any number of relays, and back.
 */
module EndToEnd {
  import opened Basics
  import opened NodeModel
  import opened NodeFacts
  import opened SerialFormat
  import opened WireFormat

  /** A relay, in the state in which the datagram finds it, and the peer it takes the datagram to come from. */
  datatype Hop = Hop(k: Crypto, node: Node, from: Pip, sender: Option<Addr>)

  /** The node sends `next` on, having read `datagram`. */
  ghost predicate PassesOn(r: Hop, datagram: Bytes, next: Bytes) {
    && Decode(datagram).Success?
    && exists p <- HandleUdp(r.k, r.node, r.from, r.sender, Decode(datagram).value).sent ::
         p.msg.Data? && Encode(p.msg) == Success(next)
  }

  /** `wire[i]` is what relay `i` received, and the last entry is what the last one sent. */
  ghost predicate Carried(relays: seq<Hop>, wire: seq<Bytes>) {
    |wire| == |relays| + 1 && forall i :: 0 <= i < |relays| ==> PassesOn(relays[i], wire[i], wire[i + 1])
  }

  /** The datagram is tunneled data with these fields, at some TTL. */
  ghost predicate Bears(datagram: Bytes, src: Addr, dst: Addr, nonce: Octets24, blob: Bytes) {
    exists ttl: Byte :: Decode(datagram) == Success(Data(src, dst, ttl, nonce, blob))
  }

  /** A node that is not the destination changes nothing but the TTL. */
  lemma RelayKeepsData(r: Hop, datagram: Bytes, next: Bytes, src: Addr, dst: Addr, nonce: Octets24, blob: Bytes)
    requires Bears(datagram, src, dst, nonce, blob) && PassesOn(r, datagram, next)
    requires r.node.me != dst && |blob| <= SANE_MAX_SIZE
    ensures Bears(next, src, dst, nonce, blob)
  {
    hide RouteDetail, Decode, Encode;
    var m := Decode(datagram).value;
    var p :| p in HandleUdp(r.k, r.node, r.from, r.sender, m).sent && p.msg.Data? && Encode(p.msg) == Success(next);
    ForwardFacts(r.node, src, dst, dst, Reason(src, RouteOtherPacket), 0, ClampTtl(m.dttl), nonce, blob);
    var sentTtl := p.msg.dttl;
    assert p.msg == Data(src, dst, sentTtl, nonce, blob);
    WhatIsSentIsReceived(p.msg);
  }

  lemma {:induction false} RelaysKeepData(relays: seq<Hop>, wire: seq<Bytes>, src: Addr, dst: Addr, nonce: Octets24, blob: Bytes)
    requires Carried(relays, wire) && Bears(wire[0], src, dst, nonce, blob)
    requires |blob| <= SANE_MAX_SIZE && forall r <- relays :: r.node.me != dst
    ensures Bears(wire[|relays|], src, dst, nonce, blob)
    decreases |relays|
  {
    hide Bears, PassesOn;
    if relays != [] {
      var n := |relays| - 1;
      RelaysKeepData(relays[..n], wire[..|relays|], src, dst, nonce, blob);
      RelayKeepsData(relays[n], wire[n], wire[n + 1], src, dst, nonce, blob);
    }
  }

  /** What the sender hands to its peer for a frame read from TUN. */
  lemma SenderSends(k: Crypto, n: Node, frame: Bytes, nonce: Octets24, p: Packet, datagram: Bytes)
    requires |frame| >= 44 && FrameDestination(frame) in n.tunnels
    requires p in HandleTun(k, n, frame, nonce).sent && p.msg.Data? && Encode(p.msg) == Success(datagram)
    requires |k.box(n.tunnels[FrameDestination(frame)], nonce, Cleartext(frame))| <= SANE_MAX_SIZE
    ensures Bears(datagram, FrameSource(frame), FrameDestination(frame), nonce,
                  k.box(n.tunnels[FrameDestination(frame)], nonce, Cleartext(frame)))
  {
    hide RouteDetail, Decode, Encode;
    var src, dst := FrameSource(frame), FrameDestination(frame);
    var blob := k.box(n.tunnels[dst], nonce, Cleartext(frame));
    ForwardFacts(n, src, dst, dst, Reason(ZERO_ADDR, RouteOwnPacket), 0, DATA_ROUTE_TTL, nonce, blob);
    var ttl := p.msg.dttl;
    assert p.msg == Data(src, dst, ttl, nonce, blob);
    WhatIsSentIsReceived(p.msg);
  }

  /** Taking the destination out and putting it back is the identity, and the source address is in its place. */
  lemma FrameRestored(frame: Bytes)
    requires |frame| >= 44
    ensures TunFrame(FrameSource(frame), FrameDestination(frame), Cleartext(frame))
         == if SupportedProtocol(frame[4..]) then [TUN_HEADER + frame[4..]] else []
  {
    var clear := Cleartext(frame);
    assert clear[..24] == frame[4..28] && clear[24..] == frame[44..];
    assert clear[6] == frame[4..][6];
    assert clear[..24] + FrameDestination(frame).octets + clear[24..] == frame[4..];
    assert frame[4..][8..24] == frame[12..28];
  }

  /**
   * A frame of at least a TUN header and an IPv6 header is written to the receiver's TUN device with its packet unchanged,
   * after any number of relays in any states, exactly when its protocol is supported and the receiver has a tunnel that
   * opens what the sender's tunnel closed.
   */
  lemma FrameArrivesUnchanged(
      kA: Crypto, a: Node, frame: Bytes, nonce: Octets24, p: Packet, relays: seq<Hop>, wire: seq<Bytes>,
      kD: Crypto, d: Node, from: Pip, sender: Addr)
    requires |frame| >= 44 && FrameDestination(frame) in a.tunnels
    requires |kA.box(a.tunnels[FrameDestination(frame)], nonce, Cleartext(frame))| <= SANE_MAX_SIZE
    requires p in HandleTun(kA, a, frame, nonce).sent && p.msg.Data?
    requires Carried(relays, wire) && Encode(p.msg) == Success(wire[0])
    requires forall r <- relays :: r.node.me != FrameDestination(frame)
    requires d.me == FrameDestination(frame)
    requires FrameSource(frame) in d.tunnels ==> forall m: Bytes ::
               kD.unbox(d.tunnels[FrameSource(frame)], nonce, kA.box(a.tunnels[d.me], nonce, m)) == Some(m)
    ensures Decode(wire[|relays|]).Success?
    ensures HandleUdp(kD, d, from, Some(sender), Decode(wire[|relays|]).value).tun
         == if FrameSource(frame) in d.tunnels && SupportedProtocol(frame[4..]) then [TUN_HEADER + frame[4..]] else []
  {
    hide RouteDetail, Decode, Encode, PassesOn, TunFrame, Cleartext, FrameSource, FrameDestination, SupportedProtocol;
    var src, dst := FrameSource(frame), FrameDestination(frame);
    var blob := kA.box(a.tunnels[dst], nonce, Cleartext(frame));
    SenderSends(kA, a, frame, nonce, p, wire[0]);
    RelaysKeepData(relays, wire, src, dst, nonce, blob);
    FrameRestored(frame);
  }

  /** The whole frame comes out, TUN header and all, if and only if it went in with the header that is written back. */
  lemma FrameIdentical(frame: Bytes)
    requires |frame| >= 44
    ensures TUN_HEADER + frame[4..] == frame <==> frame[..4] == TUN_HEADER
  {
    assert frame == frame[..4] + frame[4..];
    assert (TUN_HEADER + frame[4..])[..4] == TUN_HEADER;
  }
}
