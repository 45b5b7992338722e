/** Tunneled data is relayed a bounded number of times, whatever the route tables say. */
module RelayBound {
  import opened Basics
  import opened NodeModel
  import opened NodeFacts

  /** One relay: the node in the state it is in, and whom it takes the datagram to be from. */
  datatype Relay = Relay(node: Node, sender: Option<Addr>)

  /** `legs[i]` reaches `relays[i]`, which is not its destination and in answer sends the data as `legs[i + 1]`. */
  ghost predicate RelayedAlong(k: Crypto, relays: seq<Relay>, legs: seq<Packet>) {
    && |legs| == |relays| + 1
    && (forall p <- legs :: p.msg.Data?)
    && forall i: nat | i < |relays| ::
         && legs[i].msg.dst != relays[i].node.me
         && legs[i + 1] in HandleUdp(k, relays[i].node, legs[i].from, relays[i].sender, legs[i].msg).sent
  }

  /** A relay sends the same payload on, with a TTL that is smaller and at most five. */
  lemma RelayOnce(k: Crypto, relay: Relay, p: Packet, q: Packet)
    requires p.msg.Data? && q.msg.Data? && p.msg.dst != relay.node.me
    requires q in HandleUdp(k, relay.node, p.from, relay.sender, p.msg).sent
    ensures q.msg == p.msg.(dttl := q.msg.dttl)
    ensures 0 < q.msg.dttl == ClampTtl(p.msg.dttl)
  {
    var n, m := relay.node, p.msg;
    ForwardFacts(n, m.src, m.dst, m.dst, Reason(m.src, RouteOtherPacket), 0, ClampTtl(m.dttl), m.nonce, m.blob);
  }

  /** From any TTL byte and through arbitrary tables, loops included: at most five relays, and the payload is untouched. */
  lemma {:induction false} AtMostFiveRelays(k: Crypto, relays: seq<Relay>, legs: seq<Packet>)
    requires RelayedAlong(k, relays, legs)
    ensures |relays| <= Max(0, ClampTtl(legs[0].msg.dttl)) <= 5
    ensures legs[|relays|].msg == legs[0].msg.(dttl := legs[|relays|].msg.dttl)
    decreases |relays|
  {
    if relays != [] {
      hide HandleUdp;
      RelayOnce(k, relays[0], legs[0], legs[1]);
      var rest, restLegs := relays[1..], legs[1..];
      assert RelayedAlong(k, rest, restLegs) by { TailRelayed(k, relays, legs); }
      AtMostFiveRelays(k, rest, restLegs);
    }
  }

  lemma TailRelayed(k: Crypto, relays: seq<Relay>, legs: seq<Packet>)
    requires RelayedAlong(k, relays, legs) && relays != []
    ensures RelayedAlong(k, relays[1..], legs[1..])
  {
    hide HandleUdp;
    forall i: nat | i < |relays[1..]|
      ensures legs[1..][i].msg.dst != relays[1..][i].node.me
      ensures var r := relays[1..][i];
              legs[1..][i + 1] in HandleUdp(k, r.node, legs[1..][i].from, r.sender, legs[1..][i].msg).sent
    {
      assert legs[i + 2] in HandleUdp(k, relays[i + 1].node, legs[i + 1].from, relays[i + 1].sender, legs[i + 1].msg).sent;
    }
  }
}
