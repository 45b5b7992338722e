/** Sums of weights over the datagrams in flight. */
module PacketSums {
  import opened NodeModel

  ghost function Sum(w: Packet -> nat, m: multiset<Packet>): nat
    decreases |m|
  {
    if m == multiset{} then 0
    else
      var p :| p in m;
      w(p) + Sum(w, m - multiset{p})
  }

  lemma {:induction false} SumRemove(w: Packet -> nat, m: multiset<Packet>, p: Packet)
    requires p in m
    ensures Sum(w, m) == w(p) + Sum(w, m - multiset{p})
    decreases |m|
  {
    var q :| q in m && Sum(w, m) == w(q) + Sum(w, m - multiset{q});
    if q != p {
      SumRemove(w, m - multiset{q}, p);
      SumRemove(w, m - multiset{p}, q);
      assert m - multiset{q} - multiset{p} == m - multiset{p} - multiset{q};
    }
  }

  lemma SumOne(w: Packet -> nat, p: Packet)
    ensures Sum(w, multiset{p}) == w(p)
  {
    SumRemove(w, multiset{p}, p);
    assert multiset{p} - multiset{p} == multiset{};
  }

  lemma {:induction false} SumUnion(w: Packet -> nat, a: multiset<Packet>, b: multiset<Packet>)
    ensures Sum(w, a + b) == Sum(w, a) + Sum(w, b)
    decreases |b|
  {
    if b == multiset{} {
      assert a + b == a;
    } else {
      var p :| p in b;
      SumRemove(w, b, p);
      SumRemove(w, a + b, p);
      assert a + b - multiset{p} == a + (b - multiset{p});
      SumUnion(w, a, b - multiset{p});
    }
  }
}
