/** A datagram as it comes from the socket: parsed, and handled when it is a message. */
module Reception {
  import opened Basics
  import opened NodeModel
  import opened WireFormat
  import opened TunServer

  /** Whatever cannot be parsed changes nothing, sends nothing and writes nothing. */
  method ReceiveDatagram(s: Server, from: Pip, buf: Bytes) returns (sender: Option<Addr>)
    requires s.Valid()
    modifies s, s.routing, s.routing.search.Values, s.peers.Values
    ensures s.Valid()
    ensures Decode(buf).Failure? ==> s.View() == old(s.View()) && s.wire == old(s.wire) && s.tun == old(s.tun)
    ensures Decode(buf).Success? ==>
              && Recognised(old(s.View()), from, sender)
              && var st := HandleUdp(s.k, old(s.View()), from, sender, Decode(buf).value);
                 s.View() == st.node && s.wire == old(s.wire) + st.sent && s.tun == old(s.tun) + st.tun
  {
    hide Decode, HandleUdp, Recognised;
    sender := None;
    var msg := ParseDatagram(buf);
    if msg.Success? {
      sender := s.ReceiveUdp(from, msg.value);
    }
  }
}
