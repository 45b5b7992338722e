/**
 * The pool of shared buffers between TUN readers and UDP senders: welds are reserved, filled, posted, sent and cleared by
 * threads that interleave in any order.
 */
module WeldPool {
  import opened Basics

  const MAX_READ: nat := 9000
  const BUFFER_SIZE: nat := 2 * MAX_READ
  const MAC_SIZE: nat := 16
  const ARRAY_SIZE: nat := BUFFER_SIZE + MAC_SIZE
  const MAX_FRAGMENTS: nat := 32

  // ---------------------------------------------------------------- one weld

  /** `data` is what is written so far; `ends` are the ends of its fragments. */
  datatype Weld = Weld(data: Bytes, ends: seq<nat>, reserved: bool)

  const EMPTY_WELD := Weld([], [], false)

  function SpaceLeft(w: Weld): int {
    if |w.ends| >= MAX_FRAGMENTS then 0 else BUFFER_SIZE - |w.data|
  }

  /** Room for whatever the next read may bring. */
  predicate HasRoom(w: Weld) {
    SpaceLeft(w) >= MAX_READ
  }

  function WithFragment(w: Weld, chunk: Bytes): Weld {
    w.(data := w.data + chunk, ends := w.ends + [|w.data| + |chunk|])
  }

  /** The fragment ends cut `[0, |data|)` into consecutive ranges. */
  ghost predicate Partition(data: Bytes, ends: seq<nat>) {
    && (if ends == [] then data == [] else ends[|ends| - 1] == |data|)
    && (forall i, j :: 0 <= i < j < |ends| ==> ends[i] <= ends[j])
  }

  ghost predicate WeldOk(w: Weld) {
    && Partition(w.data, w.ends)
    && |w.ends| <= MAX_FRAGMENTS && |w.data| <= BUFFER_SIZE
    && (!w.reserved ==> HasRoom(w))
  }

  /** The fragments themselves. */
  ghost function Fragments(data: Bytes, ends: seq<nat>): seq<Bytes>
    requires Partition(data, ends)
    decreases |ends|
  {
    if ends == [] then []
    else
      var n := |ends| - 1;
      var from := if n == 0 then 0 else ends[n - 1];
      Fragments(data[..from], ends[..n]) + [data[from..]]
  }

  /** The fragments without their order. */
  ghost function Content(w: Weld): multiset<Bytes> {
    if Partition(w.data, w.ends) then multiset(Fragments(w.data, w.ends)) else multiset{}
  }

  ghost function Concat(parts: seq<Bytes>): Bytes
    decreases |parts|
  {
    if parts == [] then [] else Concat(parts[..|parts| - 1]) + parts[|parts| - 1]
  }

  /** The fragments are all of the data, in order. */
  lemma {:induction false} FragmentsAreTheData(data: Bytes, ends: seq<nat>)
    requires Partition(data, ends)
    ensures |Fragments(data, ends)| == |ends| && Concat(Fragments(data, ends)) == data
    decreases |ends|
  {
    if ends != [] {
      var n := |ends| - 1;
      var from := if n == 0 then 0 else ends[n - 1];
      FragmentsAreTheData(data[..from], ends[..n]);
      var parts := Fragments(data[..from], ends[..n]);
      assert (parts + [data[from..]])[..|parts|] == parts;
      assert data[..from] + data[from..] == data;
    }
  }

  lemma OneMoreFragment(w: Weld, chunk: Bytes)
    requires Partition(w.data, w.ends)
    ensures var w' := WithFragment(w, chunk);
            Partition(w'.data, w'.ends) && Fragments(w'.data, w'.ends) == Fragments(w.data, w.ends) + [chunk]
  {
    var w' := WithFragment(w, chunk);
    assert w'.data[..|w.data|] == w.data && w'.data[|w.data|..] == chunk;
    assert w'.ends[..|w.ends|] == w.ends;
  }

  // ---------------------------------------------------------------- the pool and its steps

  datatype Reader =
    | Idle
    | Reserved(weld: nat)
    | HasRead(weld: nat, chunk: Bytes)
    | Stored(weld: nat)

  /**
   * `posted` holds the send tasks not started, `sending` the started ones with the bytes given to the socket, `leaked` the
   * welds left reserved by a read that threw. `read` and `sent` record every chunk that came and went.
   */
  datatype Pool = Pool(
    welds: seq<Weld>,
    readers: seq<Reader>,
    posted: multiset<nat>,
    sending: map<nat, Bytes>,
    leaked: multiset<nat>,
    read: multiset<Bytes>,
    sent: multiset<Bytes>)

  datatype Event =
    | Reserve(r: nat)
    | Read(r: nat, chunk: Bytes)
    | ReadThrows(r: nat)
    | Store(r: nat)
    | Decide(r: nat)
    | StartSend(w: nat)
    | SendDone(w: nat)

  /** The lowest weld that is free and has room, or the number of welds. */
  function FirstFree(welds: seq<Weld>, from: nat): (i: nat)
    requires from <= |welds|
    ensures from <= i <= |welds|
    ensures i < |welds| ==> !welds[i].reserved && HasRoom(welds[i])
    ensures forall j :: from <= j < i ==> welds[j].reserved || !HasRoom(welds[j])
    decreases |welds| - from
  {
    if from == |welds| || (!welds[from].reserved && HasRoom(welds[from])) then from else FirstFree(welds, from + 1)
  }

  /**
   * When a step can be taken. A reservation locks out every reader that is between storing and deciding; a read brings
   * at most the space that was offered.
   */
  ghost predicate Enabled(p: Pool, e: Event) {
    match e
    case Reserve(r) => r < |p.readers| && p.readers[r].Idle? && forall q :: 0 <= q < |p.readers| ==> !p.readers[q].Stored?
    case Read(r, chunk) =>
      r < |p.readers| && p.readers[r].Reserved? && p.readers[r].weld < |p.welds|
      && |chunk| <= SpaceLeft(p.welds[p.readers[r].weld])
    case ReadThrows(r) => r < |p.readers| && p.readers[r].Reserved?
    case Store(r) => r < |p.readers| && p.readers[r].HasRead? && p.readers[r].weld < |p.welds|
    case Decide(r) => r < |p.readers| && p.readers[r].Stored? && p.readers[r].weld < |p.welds|
    case StartSend(w) => w in p.posted && w < |p.welds|
    case SendDone(w) => w in p.sending && w < |p.welds|
  }

  function Reserving(p: Pool, r: nat): Pool
    requires r < |p.readers|
  {
    var i := FirstFree(p.welds, 0);
    if i == |p.welds| then p
    else p.(welds := p.welds[i := p.welds[i].(reserved := true)], readers := p.readers[r := Reserved(i)])
  }

  /** A weld with room left goes back to the pool; any other is posted to be sent, still reserved. */
  function Deciding(p: Pool, r: nat): Pool
    requires r < |p.readers| && p.readers[r].Stored? && p.readers[r].weld < |p.welds|
  {
    var i := p.readers[r].weld;
    var w := p.welds[i];
    if HasRoom(w) then p.(welds := p.welds[i := w.(reserved := false)], readers := p.readers[r := Idle])
    else p.(posted := p.posted + multiset{i}, readers := p.readers[r := Idle])
  }

  ghost function Apply(p: Pool, e: Event): Pool
    requires Enabled(p, e)
  {
    match e
    case Reserve(r) => Reserving(p, r)
    case Read(r, chunk) =>
      p.(readers := p.readers[r := HasRead(p.readers[r].weld, chunk)], read := p.read + multiset{chunk})
    case ReadThrows(r) =>
      p.(readers := p.readers[r := Idle], leaked := p.leaked + multiset{p.readers[r].weld})
    case Store(r) =>
      var i := p.readers[r].weld;
      p.(welds := p.welds[i := WithFragment(p.welds[i], p.readers[r].chunk)], readers := p.readers[r := Stored(i)])
    case Decide(r) => Deciding(p, r)
    case StartSend(w) => p.(posted := p.posted - multiset{w}, sending := p.sending[w := p.welds[w].data])
    case SendDone(w) =>
      p.(sending := p.sending - {w}, welds := p.welds[w := EMPTY_WELD],
         sent := p.sent + Content(Weld(p.sending[w], p.welds[w].ends, true)))
  }

  // ---------------------------------------------------------------- the invariant

  ghost predicate Holds(r: Reader, w: nat) {
    !r.Idle? && r.weld == w
  }

  /** How many readers hold the weld. */
  ghost function HeldCount(readers: seq<Reader>, w: nat): nat
    decreases |readers|
  {
    if readers == [] then 0
    else HeldCount(readers[..|readers| - 1], w) + if Holds(readers[|readers| - 1], w) then 1 else 0
  }

  ghost predicate HasInHand(r: Reader, chunk: Bytes) {
    r.HasRead? && r.chunk == chunk
  }

  /** How many readers have read the chunk and not stored it. */
  ghost function PendingCount(readers: seq<Reader>, chunk: Bytes): nat
    decreases |readers|
  {
    if readers == [] then 0
    else PendingCount(readers[..|readers| - 1], chunk) + if HasInHand(readers[|readers| - 1], chunk) then 1 else 0
  }

  /** How many fragments in all the welds are this chunk. */
  ghost function ContentCount(welds: seq<Weld>, chunk: Bytes): nat
    decreases |welds|
  {
    if welds == [] then 0 else ContentCount(welds[..|welds| - 1], chunk) + Content(welds[|welds| - 1])[chunk]
  }

  lemma {:induction false} HeldUpdate(readers: seq<Reader>, i: nat, r: Reader, w: nat)
    requires i < |readers|
    ensures HeldCount(readers[i := r], w) + (if Holds(readers[i], w) then 1 else 0)
         == HeldCount(readers, w) + if Holds(r, w) then 1 else 0
    decreases |readers|
  {
    hide Holds;
    var n := |readers| - 1;
    if i < n {
      HeldUpdate(readers[..n], i, r, w);
      assert readers[i := r][..n] == readers[..n][i := r];
    } else {
      assert readers[i := r][..n] == readers[..n];
    }
  }

  lemma {:induction false} PendingUpdate(readers: seq<Reader>, i: nat, r: Reader, chunk: Bytes)
    requires i < |readers|
    ensures PendingCount(readers[i := r], chunk) + (if HasInHand(readers[i], chunk) then 1 else 0)
         == PendingCount(readers, chunk) + if HasInHand(r, chunk) then 1 else 0
    decreases |readers|
  {
    hide HasInHand;
    var n := |readers| - 1;
    if i < n {
      PendingUpdate(readers[..n], i, r, chunk);
      assert readers[i := r][..n] == readers[..n][i := r];
    } else {
      assert readers[i := r][..n] == readers[..n];
    }
  }

  lemma {:induction false} ContentUpdate(welds: seq<Weld>, i: nat, w: Weld, chunk: Bytes)
    requires i < |welds|
    ensures ContentCount(welds[i := w], chunk) + Content(welds[i])[chunk]
         == ContentCount(welds, chunk) + Content(w)[chunk]
    decreases |welds|
  {
    hide Content;
    var n := |welds| - 1;
    if i < n {
      ContentUpdate(welds[..n], i, w, chunk);
      assert welds[i := w][..n] == welds[..n][i := w];
    } else {
      assert welds[i := w][..n] == welds[..n];
    }
  }

  lemma {:induction false} IdleHoldNothing(readers: seq<Reader>, w: nat, chunk: Bytes)
    requires forall r <- readers :: r.Idle?
    ensures HeldCount(readers, w) == 0 && PendingCount(readers, chunk) == 0
    decreases |readers|
  {
    if readers != [] {
      IdleHoldNothing(readers[..|readers| - 1], w, chunk);
    }
  }

  lemma {:induction false} EmptyContents(welds: seq<Weld>, chunk: Bytes)
    requires forall i :: 0 <= i < |welds| ==> welds[i] == EMPTY_WELD
    ensures ContentCount(welds, chunk) == 0
    decreases |welds|
  {
    if welds != [] {
      EmptyContents(welds[..|welds| - 1], chunk);
    }
  }

  /** Everyone who may touch the weld: readers, tasks waiting, tasks under way, and reads that threw. */
  ghost function OwnerCount(p: Pool, w: nat): nat {
    HeldCount(p.readers, w) + p.posted[w] + (if w in p.sending then 1 else 0) + p.leaked[w]
  }

  /** A reserved weld has exactly one owner, any other has none. */
  ghost predicate SingleOwners(p: Pool) {
    forall w: nat :: OwnerCount(p, w) == if w < |p.welds| && p.welds[w].reserved then 1 else 0
  }

  /** What was read is what was sent, what the welds hold, and what a reader has in hand. */
  ghost predicate Conserved(p: Pool) {
    forall chunk: Bytes :: p.read[chunk] == p.sent[chunk] + ContentCount(p.welds, chunk) + PendingCount(p.readers, chunk)
  }

  ghost predicate ReaderOk(p: Pool, r: Reader) {
    match r
    case Idle => true
    case Reserved(w) => w < |p.welds| && HasRoom(p.welds[w])
    case HasRead(w, chunk) => w < |p.welds| && |p.welds[w].ends| < MAX_FRAGMENTS && |p.welds[w].data| + |chunk| <= BUFFER_SIZE
    case Stored(w) => w < |p.welds|
  }

  /** Every weld is sound, every reader has what its next step needs, and every send gets its weld's bytes. */
  ghost predicate Shaped(p: Pool) {
    && (forall i :: 0 <= i < |p.welds| ==> WeldOk(p.welds[i]))
    && (forall r :: 0 <= r < |p.readers| ==> ReaderOk(p, p.readers[r]))
    && (forall i <- p.sending :: i < |p.welds| && p.sending[i] == p.welds[i].data)
  }

  ghost predicate Inv(p: Pool) {
    Shaped(p) && SingleOwners(p) && Conserved(p)
  }

  ghost predicate Initial(p: Pool) {
    && (forall i :: 0 <= i < |p.welds| ==> p.welds[i] == EMPTY_WELD)
    && (forall r <- p.readers :: r.Idle?)
    && p.posted == multiset{} && p.sending == map[] && p.leaked == multiset{} && p.read == multiset{} && p.sent == multiset{}
  }

  lemma InitialInv(p: Pool)
    requires Initial(p)
    ensures Inv(p)
  {
    forall w: nat ensures OwnerCount(p, w) == 0 {
      IdleHoldNothing(p.readers, w, []);
    }
    forall chunk: Bytes ensures ContentCount(p.welds, chunk) == 0 && PendingCount(p.readers, chunk) == 0 {
      IdleHoldNothing(p.readers, 0, chunk);
      EmptyContents(p.welds, chunk);
    }
  }

  lemma ReaderOwns(readers: seq<Reader>, r: nat)
    requires r < |readers| && !readers[r].Idle?
    ensures HeldCount(readers, readers[r].weld) >= 1
  {
    HeldUpdate(readers, r, Idle, readers[r].weld);
  }

  /** Two readers with one weld would be two in the count. */
  lemma TwoReadersOwn(readers: seq<Reader>, r: nat, q: nat)
    requires r < |readers| && q < |readers| && r != q && !readers[r].Idle? && !readers[q].Idle?
    requires readers[r].weld == readers[q].weld
    ensures HeldCount(readers, readers[r].weld) >= 2
  {
    HeldUpdate(readers, r, Idle, readers[r].weld);
    ReaderOwns(readers[r := Idle], q);
  }

  /** A reader holding a weld is its only owner. */
  lemma HolderIsAlone(p: Pool, r: nat)
    requires SingleOwners(p) && r < |p.readers| && !p.readers[r].Idle?
    ensures var w := p.readers[r].weld;
            && w < |p.welds| && p.welds[w].reserved && w !in p.posted && w !in p.sending && w !in p.leaked
            && forall q :: 0 <= q < |p.readers| && q != r && !p.readers[q].Idle? ==> p.readers[q].weld != w
  {
    hide HeldCount;
    ReaderOwns(p.readers, r);
    var w := p.readers[r].weld;
    assert OwnerCount(p, w) >= 1;
    forall q | 0 <= q < |p.readers| && q != r && !p.readers[q].Idle? ensures p.readers[q].weld != w {
      if p.readers[q].weld == w {
        TwoReadersOwn(p.readers, r, q);
      }
    }
  }

  /** A task that is posted or under way is the only owner of its weld. */
  lemma TaskIsAlone(p: Pool, w: nat)
    requires SingleOwners(p) && (w in p.posted || w in p.sending)
    ensures w < |p.welds| && p.welds[w].reserved && w !in p.leaked
    ensures w in p.posted ==> w !in p.sending && p.posted[w] == 1
    ensures forall q :: 0 <= q < |p.readers| && !p.readers[q].Idle? ==> p.readers[q].weld != w
  {
    hide HeldCount;
    assert OwnerCount(p, w) >= 1;
    forall q | 0 <= q < |p.readers| && !p.readers[q].Idle? ensures p.readers[q].weld != w {
      ReaderOwns(p.readers, q);
    }
  }

  /** A weld that is not reserved is nobody's. */
  lemma FreeIsUnowned(p: Pool, w: nat)
    requires SingleOwners(p) && w < |p.welds| && !p.welds[w].reserved
    ensures w !in p.posted && w !in p.sending && w !in p.leaked
    ensures forall q :: 0 <= q < |p.readers| && !p.readers[q].Idle? ==> p.readers[q].weld != w
  {
    hide HeldCount;
    assert OwnerCount(p, w) == 0;
    forall q | 0 <= q < |p.readers| && !p.readers[q].Idle? ensures p.readers[q].weld != w {
      ReaderOwns(p.readers, q);
    }
  }

  // ---------------------------------------------------------------- every step keeps single ownership

  lemma OwnersKept(p: Pool, e: Event)
    requires Inv(p) && Enabled(p, e)
    ensures SingleOwners(Apply(p, e))
  {
    hide OwnerCount, Shaped, Conserved, HasRoom, Fragments;
    var p' := Apply(p, e);
    forall w: nat ensures OwnerCount(p', w) == if w < |p'.welds| && p'.welds[w].reserved then 1 else 0 {
      match e
      case Reserve(r) => ReserveKeepsOwner(p, r, w);
      case Store(r) => StoreKeepsOwner(p, r, w);
      case Decide(r) => DecideKeepsOwner(p, r, w);
      case StartSend(v) => TaskKeepsOwner(p, e, w);
      case SendDone(v) => TaskKeepsOwner(p, e, w);
      case _ => ReadKeepsOwner(p, e, w);
    }
  }

  ghost predicate OwnerRight(p: Pool, w: nat) {
    OwnerCount(p, w) == if w < |p.welds| && p.welds[w].reserved then 1 else 0
  }

  lemma ReserveKeepsOwner(p: Pool, r: nat, w: nat)
    requires OwnerRight(p, w) && Enabled(p, Reserve(r))
    ensures OwnerRight(Reserving(p, r), w)
  {
    hide HeldCount, HasRoom;
    HeldUpdate(p.readers, r, Reserved(FirstFree(p.welds, 0)), w);
  }

  lemma ReadKeepsOwner(p: Pool, e: Event, w: nat)
    requires OwnerRight(p, w) && Enabled(p, e) && (e.Read? || e.ReadThrows?)
    ensures OwnerRight(Apply(p, e), w)
  {
    hide HeldCount, HasRoom;
    HeldUpdate(p.readers, e.r, Apply(p, e).readers[e.r], w);
  }

  lemma StoreKeepsOwner(p: Pool, r: nat, w: nat)
    requires OwnerRight(p, w) && Enabled(p, Store(r))
    ensures OwnerRight(Apply(p, Store(r)), w)
  {
    hide HeldCount;
    HeldUpdate(p.readers, r, Stored(p.readers[r].weld), w);
  }

  lemma DecideKeepsOwner(p: Pool, r: nat, w: nat)
    requires SingleOwners(p) && Enabled(p, Decide(r))
    ensures OwnerRight(Deciding(p, r), w)
  {
    hide HeldCount, HasRoom;
    HolderIsAlone(p, r);
    assert OwnerRight(p, w);
    HeldUpdate(p.readers, r, Idle, w);
  }

  lemma TaskKeepsOwner(p: Pool, e: Event, w: nat)
    requires Inv(p) && Enabled(p, e) && (e.StartSend? || e.SendDone?)
    ensures OwnerRight(Apply(p, e), w)
  {
    hide HeldCount, Shaped, Conserved, Fragments;
    TaskIsAlone(p, e.w);
    assert OwnerRight(p, w);
  }

  // ---------------------------------------------------------------- every step conserves the bytes

  lemma BytesKept(p: Pool, e: Event)
    requires Inv(p) && Enabled(p, e)
    ensures Conserved(Apply(p, e))
  {
    hide PendingCount, ContentCount, SingleOwners, Shaped, Content, Partition;
    var p' := Apply(p, e);
    forall chunk: Bytes
      ensures p'.read[chunk] == p'.sent[chunk] + ContentCount(p'.welds, chunk) + PendingCount(p'.readers, chunk)
    {
      ChunkKept(p, e, chunk);
    }
  }

  lemma ChunkKept(p: Pool, e: Event, chunk: Bytes)
    requires Inv(p) && Enabled(p, e)
    ensures var p' := Apply(p, e);
            p'.read[chunk] == p'.sent[chunk] + ContentCount(p'.welds, chunk) + PendingCount(p'.readers, chunk)
  {
    hide PendingCount, ContentCount, SingleOwners, HasRoom, Content, Partition;
    var p' := Apply(p, e);
    assert p.read[chunk] == p.sent[chunk] + ContentCount(p.welds, chunk) + PendingCount(p.readers, chunk);
    if !e.StartSend? && !e.SendDone? {
      PendingUpdate(p.readers, e.r, p'.readers[e.r], chunk);
      assert p'.readers == p.readers[e.r := p'.readers[e.r]];
    }
    match e
    case Reserve(r) =>
      var i := FirstFree(p.welds, 0);
      if i < |p.welds| {
        ContentUpdate(p.welds, i, p'.welds[i], chunk);
        ReservedContent(p.welds[i], true);
      }
    case Store(r) => StoredContent(p, r, chunk);
    case Decide(r) =>
      var i := p.readers[r].weld;
      ContentUpdate(p.welds, i, p'.welds[i], chunk);
      ReservedContent(p.welds[i], false);
    case SendDone(w) => ClearedContent(p, w, chunk);
    case _ =>
  }

  lemma ReservedContent(w: Weld, reserved: bool)
    ensures Content(w.(reserved := reserved)) == Content(w)
  {}

  lemma StoredContent(p: Pool, r: nat, chunk: Bytes)
    requires Shaped(p) && Enabled(p, Store(r))
    ensures ContentCount(Apply(p, Store(r)).welds, chunk)
         == ContentCount(p.welds, chunk) + if p.readers[r].chunk == chunk then 1 else 0
  {
    hide ContentCount, Partition, Fragments, ReaderOk;
    var i := p.readers[r].weld;
    assert WeldOk(p.welds[i]);
    OneMoreFragment(p.welds[i], p.readers[r].chunk);
    ContentUpdate(p.welds, i, WithFragment(p.welds[i], p.readers[r].chunk), chunk);
  }

  lemma ClearedContent(p: Pool, w: nat, chunk: Bytes)
    requires Shaped(p) && Enabled(p, SendDone(w))
    ensures ContentCount(Apply(p, SendDone(w)).welds, chunk) + Content(Weld(p.sending[w], p.welds[w].ends, true))[chunk]
         == ContentCount(p.welds, chunk)
  {
    hide ContentCount, ReaderOk;
    assert WeldOk(p.welds[w]);
    ContentUpdate(p.welds, w, EMPTY_WELD, chunk);
  }

  // ---------------------------------------------------------------- every step keeps the shape

  lemma ShapeKept(p: Pool, e: Event)
    requires Inv(p) && Enabled(p, e)
    ensures Shaped(Apply(p, e))
  {
    hide SingleOwners, Conserved, Partition, Fragments, FirstFree, HasRoom;
    match e
    case Reserve(r) => ReserveKeepsShape(p, r);
    case Read(r, chunk) => ReadKeepsShape(p, r, chunk);
    case ReadThrows(r) =>
    case Store(r) => StoreKeepsShape(p, r);
    case Decide(r) => DecideKeepsShape(p, r);
    case StartSend(w) =>
    case SendDone(w) => DoneKeepsShape(p, w);
  }

  lemma ReserveKeepsShape(p: Pool, r: nat)
    requires Inv(p) && Enabled(p, Reserve(r))
    ensures Shaped(Reserving(p, r))
  {
    hide SingleOwners, Conserved, Partition;
    var i := FirstFree(p.welds, 0);
    if i < |p.welds| {
      FreeIsUnowned(p, i);
    }
  }

  lemma ReadKeepsShape(p: Pool, r: nat, chunk: Bytes)
    requires Inv(p) && Enabled(p, Read(r, chunk))
    ensures Shaped(Apply(p, Read(r, chunk)))
  {
    hide SingleOwners, Conserved, Partition;
    assert ReaderOk(p, p.readers[r]);
  }

  lemma StoreKeepsShape(p: Pool, r: nat)
    requires Inv(p) && Enabled(p, Store(r))
    ensures Shaped(Apply(p, Store(r)))
  {
    hide SingleOwners, Conserved, Partition, Fragments;
    var i := p.readers[r].weld;
    assert ReaderOk(p, p.readers[r]) && WeldOk(p.welds[i]);
    HolderIsAlone(p, r);
    OneMoreFragment(p.welds[i], p.readers[r].chunk);
  }

  lemma DecideKeepsShape(p: Pool, r: nat)
    requires Inv(p) && Enabled(p, Decide(r))
    ensures Shaped(Apply(p, Decide(r)))
  {
    hide SingleOwners, Conserved, Partition;
    HolderIsAlone(p, r);
  }

  lemma DoneKeepsShape(p: Pool, w: nat)
    requires Inv(p) && Enabled(p, SendDone(w))
    ensures Shaped(Apply(p, SendDone(w)))
  {
    hide SingleOwners, Conserved, Fragments;
    TaskIsAlone(p, w);
  }

  lemma StepKeeps(p: Pool, e: Event)
    requires Inv(p) && Enabled(p, e)
    ensures Inv(Apply(p, e))
  {
    hide Apply, SingleOwners, Conserved, Shaped;
    OwnersKept(p, e);
    BytesKept(p, e);
    ShapeKept(p, e);
  }

  /** A run: the pool before each step, and after the last. */
  ghost predicate Run(states: seq<Pool>, events: seq<Event>) {
    && |states| == |events| + 1
    && Initial(states[0])
    && forall i :: 0 <= i < |events| ==>
         Enabled(states[i], events[i]) && states[i + 1] == Apply(states[i], events[i])
  }

  /** In every interleaving, at every moment: the invariant. */
  lemma {:induction false} PoolAlways(states: seq<Pool>, events: seq<Event>, k: nat)
    requires Run(states, events) && k < |states|
    ensures Inv(states[k])
    decreases k
  {
    hide Apply, Enabled, Shaped, SingleOwners, Conserved;
    if k == 0 {
      InitialInv(states[0]);
    } else {
      PoolAlways(states, events, k - 1);
      StepKeeps(states[k - 1], events[k - 1]);
    }
  }

  // ---------------------------------------------------------------- what it means

  /** Storing never trips the two assertions: there is a place for the fragment's end, and room for its bytes. */
  lemma StoreIsSafe(p: Pool, r: nat)
    requires Inv(p) && Enabled(p, Store(r))
    ensures |p.welds[p.readers[r].weld].ends| < MAX_FRAGMENTS
    ensures |p.readers[r].chunk| <= BUFFER_SIZE - |p.welds[p.readers[r].weld].data|
  {
    assert ReaderOk(p, p.readers[r]);
  }

  /** A full weld and its authenticator fit the buffer, and no fragment end exceeds 16 bits. */
  lemma BufferSuffices(p: Pool, w: nat)
    requires Inv(p) && w < |p.welds|
    ensures |p.welds[w].data| + MAC_SIZE <= ARRAY_SIZE
    ensures forall e <- p.welds[w].ends :: e < 0x1_0000
  {
    assert WeldOk(p.welds[w]);
    var ends := p.welds[w].ends;
    forall i | 0 <= i < |ends| ensures ends[i] < 0x1_0000 {
      assert i < |ends| - 1 ==> ends[i] <= ends[|ends| - 1];
    }
  }

  /** A step leaves alone every weld that it is not about. */
  lemma Untouched(p: Pool, e: Event, w: nat)
    requires Enabled(p, e) && w < |p.welds| && p.welds[w].reserved
    requires e.Store? || e.Decide? ==> p.readers[e.r].weld != w
    requires e.SendDone? ==> e.w != w
    ensures |Apply(p, e).welds| == |p.welds| && Apply(p, e).welds[w] == p.welds[w]
  {
    hide HasRoom, WithFragment;
  }

  /** From posting to clearing the weld does not change: what the socket is reading is what was decided to be sent. */
  lemma PostedIsFrozen(p: Pool, e: Event, w: nat)
    requires Inv(p) && Enabled(p, e)
    requires w in p.posted || w in p.sending
    ensures |Apply(p, e).welds| == |p.welds| && w < |p.welds|
    ensures var p' := Apply(p, e);
            if e == SendDone(w) then p'.welds[w] == EMPTY_WELD && w !in p'.posted && w !in p'.sending
            else (w in p'.posted || w in p'.sending) && p'.welds[w] == p.welds[w]
  {
    hide SingleOwners, Conserved, Shaped;
    TaskIsAlone(p, w);
    if e.Store? || e.Decide? {
      HolderIsAlone(p, e.r);
    }
    if e != SendDone(w) {
      Untouched(p, e, w);
    }
    TasksLeft(p, e, w);
  }

  lemma TasksLeft(p: Pool, e: Event, w: nat)
    requires Enabled(p, e) && (w in p.posted || w in p.sending)
    ensures var p' := Apply(p, e);
            e != SendDone(w) ==> w in p'.posted || w in p'.sending
    ensures var p' := Apply(p, e);
            e == SendDone(w) && w !in p.posted ==> p'.welds[w] == EMPTY_WELD && w !in p'.posted && w !in p'.sending
    ensures |Apply(p, e).welds| == |p.welds|
  {
    hide HasRoom, WithFragment;
  }

  lemma LeakIsAlone(p: Pool, w: nat)
    requires SingleOwners(p) && w in p.leaked
    ensures w < |p.welds| && p.welds[w].reserved && w !in p.posted && w !in p.sending
  {
    hide HeldCount;
    assert OwnerCount(p, w) >= 1;
  }

  /** A weld whose read threw is lost: no later step touches it. */
  lemma LeakedIsLost(p: Pool, e: Event, w: nat)
    requires Inv(p) && Enabled(p, e) && w in p.leaked
    ensures |Apply(p, e).welds| == |p.welds| && w < |p.welds|
    ensures w in Apply(p, e).leaked && Apply(p, e).welds[w] == p.welds[w] && p.welds[w].reserved
  {
    hide SingleOwners, Conserved, Shaped;
    LeakIsAlone(p, w);
    if e.Store? || e.Decide? {
      HolderIsAlone(p, e.r);
    }
    Untouched(p, e, w);
    LeaksLeft(p, e, w);
  }

  lemma LeaksLeft(p: Pool, e: Event, w: nat)
    requires Enabled(p, e) && w in p.leaked
    ensures w in Apply(p, e).leaked
  {
    hide HasRoom, WithFragment;
  }

  /** From the moment a read throws its weld stays reserved and as it is, whatever the threads do. */
  lemma {:induction false} LeakedForever(states: seq<Pool>, events: seq<Event>, i: nat, j: nat, w: nat)
    requires Run(states, events) && i <= j < |states| && w in states[i].leaked
    ensures w in states[j].leaked && w < |states[i].welds| && w < |states[j].welds|
    ensures states[j].welds[w] == states[i].welds[w] && states[j].welds[w].reserved
    decreases j - i
  {
    hide Apply, Enabled, Shaped, SingleOwners, Conserved;
    PoolAlways(states, events, i);
    LeakIsAlone(states[i], w);
    if i < j {
      LeakedForever(states, events, i, j - 1, w);
      PoolAlways(states, events, j - 1);
      LeakedIsLost(states[j - 1], events[j - 1], w);
    }
  }

  /** When nobody is at work, a weld is free, with room, exactly if no read into it has thrown. */
  lemma QuietPoolIsFree(p: Pool)
    requires Inv(p) && p.posted == multiset{} && p.sending == map[]
    requires forall r <- p.readers :: r.Idle?
    ensures forall w: nat | w < |p.welds| :: !p.welds[w].reserved <==> w !in p.leaked
    ensures forall w: nat | w < |p.welds| && w !in p.leaked :: HasRoom(p.welds[w])
    ensures forall chunk: Bytes :: p.read[chunk] == p.sent[chunk] + ContentCount(p.welds, chunk)
  {
    forall w: nat | w < |p.welds|
      ensures !p.welds[w].reserved <==> w !in p.leaked
      ensures w !in p.leaked ==> HasRoom(p.welds[w])
    {
      IdleHoldNothing(p.readers, w, []);
      assert OwnerCount(p, w) == p.leaked[w] && WeldOk(p.welds[w]);
    }
    forall chunk: Bytes ensures p.read[chunk] == p.sent[chunk] + ContentCount(p.welds, chunk) {
      IdleHoldNothing(p.readers, 0, chunk);
    }
  }

  // ---------------------------------------------------------------- nothing is sent early, nothing gets stuck

  /** Every weld that is posted or being sent is too full for another read. */
  ghost predicate PostedAreFull(p: Pool) {
    forall w: nat | w in p.posted || w in p.sending :: w < |p.welds| && !HasRoom(p.welds[w])
  }

  lemma FullKept(p: Pool, e: Event)
    requires Inv(p) && Enabled(p, e) && PostedAreFull(p)
    ensures PostedAreFull(Apply(p, e))
  {
    hide Inv, PostedAreFull;
    var p' := Apply(p, e);
    assert forall w: nat | w in p'.posted || w in p'.sending :: w < |p'.welds| && !HasRoom(p'.welds[w]) by {
      forall w: nat | w in p'.posted || w in p'.sending ensures w < |p'.welds| && !HasRoom(p'.welds[w]) {
        FullKeptAt(p, e, w);
      }
    }
    PostedAreFullIf(p');
  }

  lemma PostedAreFullIf(p: Pool)
    requires forall w: nat | w in p.posted || w in p.sending :: w < |p.welds| && !HasRoom(p.welds[w])
    ensures PostedAreFull(p)
  {}

  lemma FullKeptAt(p: Pool, e: Event, w: nat)
    requires Inv(p) && Enabled(p, e) && PostedAreFull(p)
    requires w in Apply(p, e).posted || w in Apply(p, e).sending
    ensures w < |Apply(p, e).welds| && !HasRoom(Apply(p, e).welds[w])
  {
    if w in p.posted || w in p.sending {
      PostedIsFrozen(p, e, w);
    } else {
      NewlyPosted(p, e, w);
    }
  }

  /** A weld is posted by a decision only, when it has no room. */
  lemma NewlyPosted(p: Pool, e: Event, w: nat)
    requires Enabled(p, e) && w !in p.posted && w !in p.sending
    requires w in Apply(p, e).posted || w in Apply(p, e).sending
    ensures w < |Apply(p, e).welds| && !HasRoom(Apply(p, e).welds[w])
  {
    hide HasRoom, WithFragment;
  }

  /** In every run only full welds are sent. */
  lemma {:induction false} OnlyFullWeldsAreSent(states: seq<Pool>, events: seq<Event>, k: nat)
    requires Run(states, events) && k < |states|
    ensures PostedAreFull(states[k])
    decreases k
  {
    hide Apply, Enabled, Shaped, SingleOwners, Conserved;
    if k > 0 {
      OnlyFullWeldsAreSent(states, events, k - 1);
      PoolAlways(states, events, k - 1);
      hide PostedAreFull;
      FullKept(states[k - 1], events[k - 1]);
    }
  }

  /** A decision frees a weld that has room and posts any other: that is all that is consistent with the above. */
  lemma DecidedExactly(p: Pool, r: nat)
    requires Inv(p) && Enabled(p, Decide(r))
    ensures var w, p' := p.readers[r].weld, Apply(p, Decide(r));
            && p'.readers[r] == Idle && p'.welds[w].data == p.welds[w].data && p'.welds[w].ends == p.welds[w].ends
            && (HasRoom(p.welds[w]) <==> !p'.welds[w].reserved)
            && (HasRoom(p.welds[w]) <==> w !in p'.posted)
  {
    hide HasRoom, WeldOk, ReaderOk, Conserved;
    HolderIsAlone(p, r);
  }

  /** A reader gets a weld exactly when one is free with room: the lowest, reserved and otherwise as it was. */
  lemma ReservedExactly(p: Pool, r: nat)
    requires Enabled(p, Reserve(r))
    ensures var p' := Apply(p, Reserve(r));
            if exists i :: 0 <= i < |p.welds| && !p.welds[i].reserved && HasRoom(p.welds[i]) then
              && p'.readers[r].Reserved? && p'.readers[r].weld < |p.welds|
              && var w := p'.readers[r].weld;
                 && !p.welds[w].reserved && HasRoom(p.welds[w]) && p'.welds == p.welds[w := p.welds[w].(reserved := true)]
                 && forall j :: 0 <= j < w ==> p.welds[j].reserved || !HasRoom(p.welds[j])
            else p' == p
  {
    hide HasRoom;
  }

  /** Unless every weld is lost to a read that threw, some step changes the pool: it never gets stuck. */
  lemma NeverStuck(p: Pool, w: nat) returns (e: Event)
    requires Inv(p) && p.readers != [] && w < |p.welds| && w !in p.leaked
    ensures Enabled(p, e) && Apply(p, e) != p
  {
    if r: nat :| r < |p.readers| && p.readers[r].Stored? {
      assert ReaderOk(p, p.readers[r]);
      e := Decide(r);
    } else if r: nat :| r < |p.readers| && p.readers[r].HasRead? {
      assert ReaderOk(p, p.readers[r]);
      e := Store(r);
    } else if r: nat :| r < |p.readers| && p.readers[r].Reserved? {
      assert ReaderOk(p, p.readers[r]);
      e := Read(r, []);
      assert Apply(p, e).readers[r].HasRead?;
    } else if v: nat :| v in p.posted {
      TaskIsAlone(p, v);
      e := StartSend(v);
      assert v in Apply(p, e).sending && v !in p.sending;
    } else if v: nat :| v in p.sending {
      e := SendDone(v);
      assert v !in Apply(p, e).sending;
    } else {
      QuietPoolIsFree(p);
      e := Reserve(0);
      ReservedExactly(p, 0);
    }
  }
}
