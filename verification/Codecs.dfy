/** Codecs for containers, built from codecs for their elements. */
module Codecs {
  import opened Basics
  import opened SerialFormat

  /** How values of one type are written, and read from the front of some bytes. */
  datatype Codec<!T> = Codec(enc: T -> Result<Bytes>, dec: Bytes -> Result<(T, Bytes)>)

  /** The value is written, and read back untouched by whatever bytes follow it. */
  ghost predicate ReadsBack<T(!new)>(c: Codec<T>, x: T) {
    c.enc(x).Success? && forall suffix: Bytes :: c.dec(c.enc(x).value + suffix) == Success((x, suffix))
  }

  function StringCodec(): Codec<Bytes> {
    Codec((s: Bytes) => EncVarstring(s), (b: Bytes) => DecVarstring(b))
  }

  function CharCodec(): Codec<Byte> {
    Codec((x: Byte) => Success([x]),
          (b: Bytes) => if b == [] then Failure(ReadPastEnd) else Success((b[0], b[1..])))
  }

  // ---------------------------------------------------------------- vectors

  function EncAll<T>(c: Codec<T>, xs: seq<T>): Result<Bytes>
    decreases |xs|
  {
    if xs == [] then Success([])
    else
      var before :- EncAll(c, xs[..|xs| - 1]);
      var last :- c.enc(xs[|xs| - 1]);
      Success(before + last)
  }

  function EncVector<T>(c: Codec<T>, xs: seq<T>): Result<Bytes> {
    var size :- EncUvarint(|xs|);
    var all :- EncAll(c, xs);
    Success(size + all)
  }

  function DecAll<T>(c: Codec<T>, n: nat, b: Bytes): Result<(seq<T>, Bytes)>
    decreases n
  {
    if n == 0 then Success(([], b))
    else
      var (xs, rest) :- DecAll(c, n - 1, b);
      var (x, rest') :- c.dec(rest);
      Success((xs + [x], rest'))
  }

  function DecVector<T>(c: Codec<T>, b: Bytes): Result<(seq<T>, Bytes)> {
    var (n, rest) :- DecUvarint(b);
    DecAll(c, n, rest)
  }

  function VectorCodec<T>(c: Codec<T>): Codec<seq<T>> {
    Codec((xs: seq<T>) => EncVector(c, xs), (b: Bytes) => DecVector(c, b))
  }

  lemma {:induction false} AllReadBack<T(!new)>(c: Codec<T>, xs: seq<T>, suffix: Bytes)
    requires forall x <- xs :: ReadsBack(c, x)
    ensures EncAll(c, xs).Success?
    ensures DecAll(c, |xs|, EncAll(c, xs).value + suffix) == Success((xs, suffix))
    decreases |xs|
  {
    if xs == [] {
      assert EncAll(c, xs).value + suffix == suffix;
    } else {
      var init, x := xs[..|xs| - 1], xs[|xs| - 1];
      assert ReadsBack(c, x);
      AllReadBack(c, init, c.enc(x).value + suffix);
      assert EncAll(c, xs).value + suffix == EncAll(c, init).value + (c.enc(x).value + suffix);
      assert init + [x] == xs;
    }
  }

  /** If the elements read back, so does the vector: at any nesting, since the result is a codec again. */
  lemma VectorReadsBack<T(!new)>(c: Codec<T>, xs: seq<T>)
    requires |xs| < Pow256(8) - 1 && forall x <- xs :: ReadsBack(c, x)
    ensures ReadsBack(VectorCodec(c), xs)
  {
    AllReadBack(c, xs, []);
    UvarintReadsBack(|xs|, []);
    forall suffix: Bytes ensures DecVector(c, EncVector(c, xs).value + suffix) == Success((xs, suffix)) {
      var size, all := EncUvarint(|xs|).value, EncAll(c, xs).value;
      AllReadBack(c, xs, suffix);
      UvarintReadsBack(|xs|, all + suffix);
      assert size + all + suffix == size + (all + suffix);
    }
  }

  // ---------------------------------------------------------------- maps

  /** `ps` goes through the map in some order, each key once. */
  ghost predicate Lists<K, V>(m: map<K, V>, ps: seq<(K, V)>) {
    && (forall p <- ps :: p.0 in m && m[p.0] == p.1)
    && (forall k <- m :: (k, m[k]) in ps)
    && DistinctKeys(ps)
  }

  ghost predicate DistinctKeys<K, V>(ps: seq<(K, V)>) {
    forall i, j :: 0 <= i < j < |ps| ==> ps[i].0 != ps[j].0
  }

  function ToMap<K, V>(ps: seq<(K, V)>): map<K, V>
    decreases |ps|
  {
    if ps == [] then map[] else ToMap(ps[..|ps| - 1])[ps[|ps| - 1].0 := ps[|ps| - 1].1]
  }

  /** A pair is written as its key and then its value. */
  function PairCodec<K, V>(kc: Codec<K>, vc: Codec<V>): Codec<(K, V)> {
    Codec((p: (K, V)) => EncPair(kc, vc, p), (b: Bytes) => DecPair(kc, vc, b))
  }

  function EncPair<K, V>(kc: Codec<K>, vc: Codec<V>, p: (K, V)): Result<Bytes> {
    var key :- kc.enc(p.0);
    var value :- vc.enc(p.1);
    Success(key + value)
  }

  function DecPair<K, V>(kc: Codec<K>, vc: Codec<V>, b: Bytes): Result<((K, V), Bytes)> {
    var (key, rest) :- kc.dec(b);
    var (value, rest') :- vc.dec(rest);
    Success(((key, value), rest'))
  }

  /** Reads `n` pairs into a map, and refuses a key that is there already. */
  function DecMapPairs<K(==), V>(kc: Codec<K>, vc: Codec<V>, n: nat, b: Bytes): Result<(map<K, V>, Bytes)>
    decreases n
  {
    if n == 0 then Success((map[], b))
    else
      var (m, rest) :- DecMapPairs(kc, vc, n - 1, b);
      var ((key, value), rest') :- DecPair(kc, vc, rest);
      if key in m then Failure(BadFormat) else Success((m[key := value], rest'))
  }

  function DecMap<K(==), V>(kc: Codec<K>, vc: Codec<V>, b: Bytes): Result<(map<K, V>, Bytes)> {
    var (n, rest) :- DecUvarint(b);
    DecMapPairs(kc, vc, n, rest)
  }

  /** `order` is the order in which the map type goes through its keys. */
  function MapCodec<K(==), V>(kc: Codec<K>, vc: Codec<V>, order: map<K, V> -> seq<(K, V)>): Codec<map<K, V>> {
    Codec((m: map<K, V>) => EncVector(PairCodec(kc, vc), order(m)), (b: Bytes) => DecMap(kc, vc, b))
  }

  lemma PairReadsBack<K(!new), V(!new)>(kc: Codec<K>, vc: Codec<V>, p: (K, V))
    requires ReadsBack(kc, p.0) && ReadsBack(vc, p.1)
    ensures ReadsBack(PairCodec(kc, vc), p)
  {
    forall suffix: Bytes ensures DecPair(kc, vc, EncPair(kc, vc, p).value + suffix) == Success((p, suffix)) {
      var key, value := kc.enc(p.0).value, vc.enc(p.1).value;
      assert key + value + suffix == key + (value + suffix);
    }
  }

  lemma {:induction false} ToMapKeys<K, V>(ps: seq<(K, V)>, k: K)
    ensures k in ToMap(ps) <==> exists p <- ps :: p.0 == k
    decreases |ps|
  {
    if ps != [] {
      var init, last := ps[..|ps| - 1], ps[|ps| - 1];
      ToMapKeys(init, k);
      assert ps == init + [last];
      assert forall p :: p in ps <==> p in init || p == last;
    }
  }

  lemma DistinctKeysMore<K, V>(ps: seq<(K, V)>, p: (K, V))
    ensures DistinctKeys(ps + [p]) <==> DistinctKeys(ps) && p.0 !in ToMap(ps)
  {
    hide ToMap;
    ToMapKeys(ps, p.0);
    var all := ps + [p];
    if DistinctKeys(all) {
      forall i, j | 0 <= i < j < |ps| ensures ps[i].0 != ps[j].0 {
        assert all[i].0 != all[j].0;
      }
      forall q | q in ps ensures q.0 != p.0 {
        var i :| 0 <= i < |ps| && ps[i] == q;
        assert all[i].0 != all[|ps|].0;
      }
    }
    if DistinctKeys(ps) && p.0 !in ToMap(ps) {
      forall i, j | 0 <= i < j < |all| ensures all[i].0 != all[j].0 {
        assert ps[i] in ps;
        assert j < |ps| ==> all[j] == ps[j];
      }
    }
  }

  lemma ToMapMore<K, V>(ps: seq<(K, V)>, p: (K, V))
    ensures ToMap(ps + [p]) == ToMap(ps)[p.0 := p.1]
  {
    assert (ps + [p])[..|ps|] == ps;
  }

  /** The map reader accepts exactly the inputs whose pairs can be read and have distinct keys, and yields their map. */
  lemma {:induction false} MapReaderIsExact<K, V>(kc: Codec<K>, vc: Codec<V>, n: nat, b: Bytes)
    ensures var pairs, read := DecAll(PairCodec(kc, vc), n, b), DecMapPairs(kc, vc, n, b);
            if pairs.Success? && DistinctKeys(pairs.value.0) then
              |pairs.value.0| == n && read == Success((ToMap(pairs.value.0), pairs.value.1))
            else
              read.Failure?
    decreases n
  {
    hide ToMap, DistinctKeys, DecPair;
    if n == 0 {
      NoPairs<K, V>();
    } else {
      MapReaderIsExact(kc, vc, n - 1, b);
      var before := DecAll(PairCodec(kc, vc), n - 1, b);
      if before.Success? {
        var next := DecPair(kc, vc, before.value.1);
        if next.Success? {
          DistinctKeysMore(before.value.0, next.value.0);
          ToMapMore(before.value.0, next.value.0);
        }
      }
    }
  }

  lemma NoPairs<K, V>()
    ensures ToMap<K, V>([]) == map[] && DistinctKeys<K, V>([])
  {}

  lemma {:induction false} ToMapOfListing<K(!new), V(!new)>(m: map<K, V>, ps: seq<(K, V)>)
    requires Lists(m, ps)
    ensures ToMap(ps) == m
  {
    forall k ensures k in ToMap(ps) <==> k in m {
      ToMapKeys(ps, k);
      if k in m {
        assert (k, m[k]) in ps && (k, m[k]).0 == k;
      }
    }
    forall k | k in m ensures ToMap(ps)[k] == m[k] {
      ToMapValue(m, ps, k);
    }
  }

  lemma {:induction false} ToMapValue<K, V>(m: map<K, V>, ps: seq<(K, V)>, k: K)
    requires forall p <- ps :: p.0 in m && m[p.0] == p.1
    requires k in ToMap(ps)
    ensures k in m && ToMap(ps)[k] == m[k]
    decreases |ps|
  {
    var init, last := ps[..|ps| - 1], ps[|ps| - 1];
    assert last in ps && forall p <- init :: p in ps;
    if k != last.0 {
      ToMapValue(m, init, k);
    }
  }

  lemma MapReadsBackBefore<K(!new), V(!new)>(kc: Codec<K>, vc: Codec<V>, m: map<K, V>, ps: seq<(K, V)>, suffix: Bytes)
    requires Lists(m, ps) && |ps| < Pow256(8) - 1
    requires forall p <- ps :: ReadsBack(PairCodec(kc, vc), p)
    ensures EncVector(PairCodec(kc, vc), ps).Success?
    ensures DecMap(kc, vc, EncVector(PairCodec(kc, vc), ps).value + suffix) == Success((m, suffix))
  {
    hide ReadsBack, PairCodec, EncAll, DecAll, DecMapPairs, ToMap, EncUvarint, DecUvarint, Pow256;
    var pc := PairCodec(kc, vc);
    AllReadBack(pc, ps, suffix);
    UvarintReadsBack(|ps|, []);
    var size, all := EncUvarint(|ps|).value, EncAll(pc, ps).value;
    UvarintReadsBack(|ps|, all + suffix);
    MapReaderIsExact(kc, vc, |ps|, all + suffix);
    ToMapOfListing(m, ps);
    assert size + all + suffix == size + (all + suffix);
  }

  /** If keys and values read back, so does the map, whatever the order in which it is written. */
  lemma MapReadsBack<K(!new), V(!new)>(kc: Codec<K>, vc: Codec<V>, order: map<K, V> -> seq<(K, V)>, m: map<K, V>)
    requires Lists(m, order(m)) && |order(m)| < Pow256(8) - 1
    requires forall k <- m :: ReadsBack(kc, k) && ReadsBack(vc, m[k])
    ensures ReadsBack(MapCodec(kc, vc, order), m)
  {
    hide EncVector, DecMap;
    forall p | p in order(m) ensures ReadsBack(PairCodec(kc, vc), p) {
      PairReadsBack(kc, vc, p);
    }
    MapReadsBackBefore(kc, vc, m, order(m), []);
    forall suffix: Bytes
      ensures DecMap(kc, vc, EncVector(PairCodec(kc, vc), order(m)).value + suffix) == Success((m, suffix))
    {
      MapReadsBackBefore(kc, vc, m, order(m), suffix);
    }
  }

  /** Keys and values of one type, one after the other. */
  function Alternating<T>(ps: seq<(T, T)>): seq<T>
    decreases |ps|
  {
    if ps == [] then [] else Alternating(ps[..|ps| - 1]) + [ps[|ps| - 1].0, ps[|ps| - 1].1]
  }

  /** The pairs of a map are written as a list in which each key is followed by its value. */
  lemma {:induction false} PairsAlternate<T>(c: Codec<T>, ps: seq<(T, T)>)
    ensures EncAll(PairCodec(c, c), ps).Success? <==> EncAll(c, Alternating(ps)).Success?
    ensures EncAll(c, Alternating(ps)).Success? ==> EncAll(PairCodec(c, c), ps) == EncAll(c, Alternating(ps))
    decreases |ps|
  {
    if ps != [] {
      var init, key, value := ps[..|ps| - 1], ps[|ps| - 1].0, ps[|ps| - 1].1;
      PairsAlternate(c, init);
      var flat := Alternating(init);
      assert Alternating(ps) == flat + [key] + [value];
      assert (flat + [key] + [value])[..|flat| + 1] == flat + [key];
      assert (flat + [key])[..|flat|] == flat;
      if EncAll(c, flat).Success? && c.enc(key).Success? && c.enc(value).Success? {
        var all, k, v := EncAll(c, flat).value, c.enc(key).value, c.enc(value).value;
        assert all + k + v == all + (k + v);
      }
    }
  }

  /** Strings up to the sane maximum read back, and so do vectors of vectors of them. */
  lemma NestedStringsReadBack(rows: seq<seq<Bytes>>)
    requires |rows| < Pow256(8) - 1
    requires forall row <- rows :: |row| < Pow256(8) - 1 && forall s <- row :: |s| <= SANE_MAX_SIZE
    ensures ReadsBack(VectorCodec(VectorCodec(StringCodec())), rows)
  {
    forall row | row in rows ensures ReadsBack(VectorCodec(StringCodec()), row) {
      forall s | s in row ensures ReadsBack(StringCodec(), s) {
        StringReadsBack(s);
      }
      VectorReadsBack(StringCodec(), row);
    }
    VectorReadsBack(VectorCodec(StringCodec()), rows);
  }

  /** A string reads back if and only if it is no longer than the sane maximum. */
  lemma StringReadsBack(s: Bytes)
    ensures ReadsBack(StringCodec(), s) <==> |s| <= SANE_MAX_SIZE
  {
    VarstringEncodes(s);
    if EncVarstring(s).Success? {
      forall suffix: Bytes
        ensures |s| <= SANE_MAX_SIZE ==> DecVarstring(EncVarstring(s).value + suffix) == Success((s, suffix))
      {
        VarstringReadsBack(s, suffix);
      }
      VarstringReadsBack(s, []);
    }
  }
}
