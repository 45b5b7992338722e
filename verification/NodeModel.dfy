/** What one node of the old loop does with one input, as functions on values. */
module NodeModel {
  import opened Basics

  /** A physical address of a peer: IP and port. */
  datatype Pip = Pip(ip: Bytes, port: nat)

  /** A serialized public key. */
  datatype Pubkey = Pubkey(serial: Bytes)

  /** What a node says in `public_hi`: its identity key, its session key, and the signature of the second by the first. */
  datatype Credentials = Credentials(idi: Pubkey, idc: Bytes, sig: Bytes)

  /** The cryptography, seen as functions: the address of a key, signature checking, and the two ends of a tunnel. */
  datatype Crypto = Crypto(
    hipOf: Pubkey -> Addr,
    verifies: Credentials -> bool,
    box: (Pubkey, Octets24, Bytes) -> Bytes,
    unbox: (Pubkey, Octets24, Bytes) -> Option<Bytes>,
    dummyNonce: Octets24)

  datatype PeerRef = PeerRef(pip: Pip, hip: Addr)

  datatype Peer = Peer(pip: Pip, hip: Addr, pubkey: Option<Pubkey>)

  datatype Route = Route(nexthop: Addr, cost: Byte, pubkey: Pubkey)

  datatype SearchMode = RouteOwnPacket | RouteOtherPacket | HelpFind

  datatype Reason = Reason(his: Addr, mode: SearchMode)

  datatype Search = Search(requests: map<Reason, int>, ttlShouldUse: int, ttlUsed: int)

  datatype Node = Node(
    me: Addr,
    pip: Pip,
    cred: Credentials,
    peers: map<Addr, Peer>,
    black: set<Addr>,
    search: map<Addr, Search>,
    routes: map<Addr, Route>,
    tunnels: map<Addr, Pubkey>)

  datatype Msg =
    | Query(goal: Addr, ttl: Byte)
    | Reply(rttl: Byte, cost: Byte, rgoal: Addr, pubkey: Pubkey)
    | Hi(cred: Credentials)
    | Data(src: Addr, dst: Addr, dttl: Byte, nonce: Octets24, blob: Bytes)

  /** A datagram; `entry` is the key of the `m_peer` entry through which it was sent. */
  datatype Packet = Packet(from: Pip, entry: Addr, to: Pip, msg: Msg)

  /** The state after one input, the datagrams sent, and the frames written to the TUN device. */
  datatype Step = Step(node: Node, sent: multiset<Packet>, tun: seq<Bytes>)

  const TTL_MAX_ACCEPTED: Byte := 5
  const DATA_ROUTE_TTL: Byte := 5
  const TUN_HEADER: Bytes := [0x00, 0x00, 0x86, 0xDD]

  // ---------------------------------------------------------------- searches and routes

  function NewSearch(): Search { Search(map[], 5, 0) }

  function AddRequest(s: Search, reason: Reason, ttl: int): Search {
    var detail := if reason in s.requests then Max(s.requests[reason], ttl) else ttl;
    s.(requests := s.requests[reason := detail], ttlShouldUse := Max(s.ttlShouldUse, ttl))
  }

  /** Routes are write-once: a known target keeps its entry. */
  function AddRoute(n: Node, target: Addr, route: Route): Node {
    if target in n.routes then n else n.(routes := n.routes[target := route])
  }

  /** One copy of the message to each peer. */
  ghost function Broadcast(n: Node, msg: Msg): multiset<Packet> {
    multiset(set h | h in n.peers :: Packet(n.pip, h, n.peers[h].pip, msg))
  }

  datatype RouteAnswer = RouteAnswer(node: Node, sent: multiset<Packet>, route: Option<Route>)

  /** `None` stands for every exception the lookup ends with. */
  ghost function GetRouteOrMaybeSearch(n: Node, dst: Addr, reason: Reason, start: bool, ttl: int): RouteAnswer {
    if dst in n.peers then
      match n.peers[dst].pubkey
      case None => RouteAnswer(n, multiset{}, None)
      case Some(pk) =>
        var n' := AddRoute(n, dst, Route(n.peers[dst].hip, 1, pk));
        RouteAnswer(n', multiset{}, Some(n'.routes[dst]))
    else if dst in n.routes then
      RouteAnswer(n, multiset{}, Some(n.routes[dst]))
    else if !start then
      RouteAnswer(n, multiset{}, None)
    else if dst in n.search then
      RouteAnswer(n.(search := n.search[dst := AddRequest(n.search[dst], reason, ttl)]), multiset{}, None)
    else
      var s := AddRequest(NewSearch(), reason, ttl);
      var ttlByte := s.ttlShouldUse % 256;
      RouteAnswer(n.(search := n.search[dst := s.(ttlUsed := ttlByte)]), Broadcast(n, Query(dst, ttlByte)), None)
  }

  // ---------------------------------------------------------------- forwarding

  /** `chosen` is the peer entry the data was handed to, if any. */
  datatype Forward = Forward(node: Node, sent: multiset<Packet>, chosen: Option<Addr>)

  ghost function RouteDetail(n: Node, src: Addr, dst: Addr, next: Addr, reason: Reason,
                             level: nat, ttl: int, nonce: Octets24, blob: Bytes): Forward
    requires level <= 2 && ttl < 256
    decreases 2 - level
  {
    if ttl <= 0 || n.peers == map[] then
      Forward(n, multiset{}, None)
    else if next in n.peers then
      Forward(n, multiset{Packet(n.pip, next, n.peers[next].pip, Data(src, dst, ttl, nonce, blob))}, Some(next))
    else if level > 1 then
      Forward(n, multiset{}, None)
    else
      var found := GetRouteOrMaybeSearch(n, next, reason, true, TTL_MAX_ACCEPTED);
      match found.route
      case None => Forward(found.node, found.sent, None)
      case Some(route) =>
        var rest := RouteDetail(found.node, src, dst, route.nexthop, reason, level + 1, ttl, nonce, blob);
        Forward(rest.node, found.sent + rest.sent, rest.chosen)
  }

  ghost function RouteTop(n: Node, src: Addr, dst: Addr, reason: Reason, ttl: int, nonce: Octets24, blob: Bytes): Forward
    requires ttl < 256
  {
    RouteDetail(n, src, dst, dst, reason, 0, ttl, nonce, blob)
  }

  ghost function Forwarded(f: Forward): Step {
    Step(f.node, f.sent, [])
  }

  // ---------------------------------------------------------------- peers and tunnels

  function AddTunnel(k: Crypto, n: Node, pk: Pubkey): Node {
    var hip := k.hipOf(pk);
    if hip in n.tunnels then n else n.(tunnels := n.tunnels[hip := pk])
  }

  /** The caller has checked that the key hashes to the address of the reference. */
  function AddPeerAppendPubkey(n: Node, ref: PeerRef, pk: Pubkey): Node {
    if ref.hip in n.peers then
      n.(peers := n.peers[ref.hip := n.peers[ref.hip].(pip := ref.pip, pubkey := Some(pk))])
    else if ref.hip in n.black then
      n
    else
      n.(peers := n.peers[ref.hip := Peer(ref.pip, ref.hip, Some(pk))])
  }

  /** The two `add_peer_simplestring` operations: add if absent, then take off the black list. */
  function AddPeerSimple(n: Node, ref: PeerRef): Node {
    n.(peers := if ref.hip in n.peers then n.peers else n.peers[ref.hip := Peer(ref.pip, ref.hip, None)],
       black := n.black - {ref.hip})
  }

  function DeletePeerSimple(n: Node, hip: Addr, ban: bool): Node {
    n.(peers := n.peers - {hip}, black := if ban then n.black + {hip} else n.black)
  }

  function DeleteAllPeers(n: Node, ban: bool): Node {
    n.(peers := map[], black := if ban then n.black + n.peers.Keys else n.black)
  }

  // ---------------------------------------------------------------- the command handlers

  /** The TTL of a query travels as a signed char. */
  function SignedByte(b: Byte): int {
    if b >= 128 then b - 256 else b
  }

  ghost function HandleQuery(n: Node, sender: Addr, goal: Addr, ttlByte: Byte): Step {
    var requested := SignedByte(ttlByte);
    if requested < 1 || sender !in n.peers then
      Step(n, multiset{}, [])
    else
      var answer := GetRouteOrMaybeSearch(n, goal, Reason(sender, HelpFind), true, requested - 1);
      match answer.route
      case None => Step(answer.node, answer.sent, [])
      case Some(route) =>
        var reply := Packet(n.pip, sender, n.peers[sender].pip, Reply(requested, route.cost, goal, route.pubkey));
        Step(answer.node, answer.sent + multiset{reply}, [])
  }

  function HandleReply(k: Crypto, n: Node, sender: Addr, ttl: Byte, cost: Byte, goal: Addr, pk: Pubkey): Step {
    if ttl < 1 then Step(n, multiset{}, [])
    else Step(AddRoute(AddTunnel(k, n, pk), goal, Route(sender, cost, pk)), multiset{}, [])
  }

  function HandleHi(k: Crypto, n: Node, from: Pip, cred: Credentials): Step {
    if !k.verifies(cred) then Step(n, multiset{}, [])
    else
      var n' := AddPeerAppendPubkey(n, PeerRef(from, k.hipOf(cred.idi)), cred.idi);
      Step(AddTunnel(k, n', cred.idi), multiset{}, [])
  }

  /** The IPv6 next-header byte is one of TCP, UDP, ICMPv6. A missing byte is an exception. */
  function SupportedProtocol(packet: Bytes): bool {
    |packet| > 6 && packet[6] in {6, 17, 58}
  }

  /** The frame written to TUN for a decrypted packet, or nothing when the packet is refused. */
  function TunFrame(src: Addr, dst: Addr, clear: Bytes): seq<Bytes> {
    if !SupportedProtocol(clear) || |clear| < 24 then []
    else
      var packet := clear[..24] + dst.octets + clear[24..];
      if packet[8..24] == src.octets then [TUN_HEADER + packet] else []
  }

  function ClampTtl(requested: Byte): int {
    Min(requested - 1, TTL_MAX_ACCEPTED)
  }

  ghost function HandleData(k: Crypto, n: Node, src: Addr, dst: Addr, ttl: Byte, nonce: Octets24, blob: Bytes): Step {
    if dst == n.me then
      if src !in n.tunnels then
        Forwarded(RouteTop(n, dst, src, Reason(ZERO_ADDR, RouteOwnPacket), ttl, k.dummyNonce, []))
      else
        match k.unbox(n.tunnels[src], nonce, blob)
        case None => Step(n, multiset{}, [])
        case Some(clear) => Step(n, multiset{}, TunFrame(src, dst, clear))
    else
      Forwarded(RouteTop(n, src, dst, Reason(src, RouteOtherPacket), ClampTtl(ttl), nonce, blob))
  }

  // ---------------------------------------------------------------- the TUN side

  /** What is encrypted: the frame without its TUN header and without the destination address. */
  function Cleartext(frame: Bytes): Bytes
    requires |frame| >= 44
  {
    frame[4..28] + frame[44..]
  }

  function FrameSource(frame: Bytes): Addr
    requires |frame| >= 44
  {
    Addr(frame[12..28])
  }

  function FrameDestination(frame: Bytes): Addr
    requires |frame| >= 44
  {
    Addr(frame[28..44])
  }

  ghost function HandleTun(k: Crypto, n: Node, frame: Bytes, nonce: Octets24): Step {
    if |frame| < 44 || FrameDestination(frame).octets[0] != 0xFD then
      Step(n, multiset{}, [])
    else
      var src, dst := FrameSource(frame), FrameDestination(frame);
      var reason := Reason(ZERO_ADDR, RouteOwnPacket);
      if dst !in n.tunnels then
        Forwarded(RouteTop(n, src, dst, reason, DATA_ROUTE_TTL, k.dummyNonce, []))
      else
        var blob := k.box(n.tunnels[dst], nonce, Cleartext(frame));
        Forwarded(RouteTop(n, src, dst, reason, DATA_ROUTE_TTL, nonce, blob))
  }

  // ---------------------------------------------------------------- one input

  datatype Input =
    | FromTun(frame: Bytes, nonce: Octets24)
    | FromUdp(from: Pip, sender: Option<Addr>, msg: Msg)
    | PingAll
    | AddPeerOp(ref: PeerRef)
    | DeletePeerOp(hip: Addr, ban: bool)
    | DeleteAllOp(banAll: bool)

  /** The sender is recognised by its physical address; `None` when no peer has it. */
  ghost predicate Recognised(n: Node, from: Pip, sender: Option<Addr>) {
    match sender
    case None => forall h <- n.peers :: n.peers[h].pip != from
    case Some(h) => h in n.peers && n.peers[h].pip == from
  }

  /** Every command but `public_hi` is refused when the sender is not recognised. */
  ghost function HandleUdp(k: Crypto, n: Node, from: Pip, sender: Option<Addr>, msg: Msg): Step {
    match msg
    case Hi(cred) => HandleHi(k, n, from, cred)
    case _ =>
      match sender
      case None => Step(n, multiset{}, [])
      case Some(h) =>
        match msg
        case Query(goal, ttl) => HandleQuery(n, h, goal, ttl)
        case Reply(ttl, cost, goal, pk) => HandleReply(k, n, h, ttl, cost, goal, pk)
        case Data(src, dst, ttl, nonce, blob) => HandleData(k, n, src, dst, ttl, nonce, blob)
        case Hi(cred) => HandleHi(k, n, from, cred)
  }

  ghost function Handle(k: Crypto, n: Node, input: Input): Step {
    match input
    case FromTun(frame, nonce) => HandleTun(k, n, frame, nonce)
    case FromUdp(from, sender, msg) => HandleUdp(k, n, from, sender, msg)
    case PingAll => Step(n, Broadcast(n, Hi(n.cred)), [])
    case AddPeerOp(ref) => Step(AddPeerSimple(n, ref), multiset{}, [])
    case DeletePeerOp(hip, ban) => Step(DeletePeerSimple(n, hip, ban), multiset{}, [])
    case DeleteAllOp(ban) => Step(DeleteAllPeers(n, ban), multiset{}, [])
  }
}
