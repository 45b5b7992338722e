/** The peer operations, and what a ban is good for. */
module Bans {
  import opened Basics
  import opened NodeModel
  import opened NodeFacts
  import opened Effects

  /** Adding makes a peer and lifts its ban; a peer that was there keeps its address and key. */
  lemma AddedIsPeer(n: Node, ref: PeerRef)
    ensures var n' := AddPeerSimple(n, ref);
            && ref.hip in n'.peers && ref.hip !in n'.black
            && n'.peers[ref.hip] == (if ref.hip in n.peers then n.peers[ref.hip] else Peer(ref.pip, ref.hip, None))
            && n' == n.(peers := n.peers[ref.hip := n'.peers[ref.hip]], black := n.black - {ref.hip})
  {
    if ref.hip in n.peers {
      assert n.peers[ref.hip := n.peers[ref.hip]] == n.peers;
    }
  }

  /** Deleting removes the peer and no other, and bans it only if asked to. */
  lemma DeletedIsGone(n: Node, h: Addr, ban: bool)
    ensures var n' := DeletePeerSimple(n, h, ban);
            && h !in n'.peers && (forall g <- n.peers | g != h :: g in n'.peers && n'.peers[g] == n.peers[g])
            && n'.peers.Keys <= n.peers.Keys
            && (h in n'.black <==> ban || h in n.black) && (forall g | g != h :: g in n'.black <==> g in n.black)
            && n' == n.(peers := n'.peers, black := n'.black)
  {}

  /** Deleting all leaves no peer, and bans exactly those that were, if asked to. */
  lemma AllAreGone(n: Node, ban: bool)
    ensures var n' := DeleteAllPeers(n, ban);
            && n'.peers == map[] && (forall h :: h in n'.black <==> h in n.black || (ban && h in n.peers))
            && n' == n.(peers := map[], black := n'.black)
  {}

  /** A deleted peer that says `public_hi` again is a peer again if and only if it is not banned, now or before. */
  lemma BanDecides(k: Crypto, n: Node, ban: bool, from: Pip, cred: Credentials)
    requires k.verifies(cred)
    ensures var h := k.hipOf(cred.idi);
            h in HandleHi(k, DeletePeerSimple(n, h, ban), from, cred).node.peers <==> !ban && h !in n.black
  {
    HiAccepted(k, DeletePeerSimple(n, k.hipOf(cred.idi), ban), from, cred);
    hide HandleHi;
  }

  /** The input adds this address as a peer on the user's order. */
  predicate Adds(input: Input, h: Addr) {
    input.AddPeerOp? && input.ref.hip == h
  }

  lemma StaysBanned(k: Crypto, n: Node, input: Input, h: Addr)
    requires h in n.black && h !in n.peers && !Adds(input, h)
    ensures h in Handle(k, n, input).node.black && h !in Handle(k, n, input).node.peers
  {
    match input
    case FromTun(frame, nonce) => TunFacts(k, n, frame, nonce);
    case FromUdp(from, sender, msg) =>
      match msg {
        case Hi(cred) =>
          if k.verifies(cred) {
            HiAccepted(k, n, from, cred);
          }
        case Reply(_, _, _, _) =>
        case _ => UdpFacts(k, n, from, sender, msg);
      }
    case _ =>
  }

  /** A banned address is no peer and stays banned, whatever arrives and is done, until the user adds it again. */
  lemma {:induction false} BannedStaysOut(k: Crypto, n: Node, inputs: seq<Input>, h: Addr)
    requires h in n.black && h !in n.peers && forall input <- inputs :: !Adds(input, h)
    ensures h in After(k, n, inputs).black && h !in After(k, n, inputs).peers
    decreases |inputs|
  {
    hide Handle;
    if inputs != [] {
      StaysBanned(k, n, inputs[0], h);
      BannedStaysOut(k, Handle(k, n, inputs[0]).node, inputs[1..], h);
    }
  }
}
