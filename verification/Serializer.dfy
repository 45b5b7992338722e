/** The generator, which appends to a string, and the parser, which moves a cursor over one. */
module Serializer {
  import opened Basics
  import opened SerialFormat
  import opened Codecs

  // ---------------------------------------------------------------- vocabulary of the contracts

  /** A writer either appended all of `spec`, or failed as `spec` does and left what was there before as a prefix. */
  ghost predicate Wrote(before: Bytes, after: Bytes, failed: Option<Error>, spec: Result<Bytes>) {
    match spec
    case Success(b) => failed == None && after == before + b
    case Failure(e) => failed == Some(e) && before <= after
  }

  /** A reader either took the value and left the bytes that `spec` leaves, or failed as `spec` does. */
  ghost predicate Took<T>(spec: Result<(T, Bytes)>, r: Result<T>, left: Bytes) {
    match spec
    case Success((v, rest)) => r == Success(v) && left == rest
    case Failure(e) => r == Failure(e)
  }

  /** A codec's reader only ever moves forward over its input. */
  ghost predicate Consumes<T(!new)>(c: Codec<T>) {
    forall b: Bytes :: c.dec(b).Success? ==>
      |c.dec(b).value.1| <= |b| && c.dec(b).value.1 == b[|b| - |c.dec(b).value.1|..]
  }

  lemma StringConsumes()
    ensures Consumes(StringCodec())
  {
    forall b: Bytes | DecVarstring(b).Success?
      ensures |DecVarstring(b).value.1| <= |b| && DecVarstring(b).value.1 == b[|b| - |DecVarstring(b).value.1|..]
    {
      var rest := DecUvarint(b).value.1;
      assert rest == b[|b| - |rest|..];
    }
  }

  lemma {:induction false} AllConsume<T(!new)>(c: Codec<T>, n: nat, b: Bytes)
    requires Consumes(c) && DecAll(c, n, b).Success?
    ensures var rest := DecAll(c, n, b).value.1; |rest| <= |b| && rest == b[|b| - |rest|..]
    decreases n
  {
    if n > 0 {
      AllConsume(c, n - 1, b);
      var rest := DecAll(c, n - 1, b).value.1;
      assert c.dec(rest).Success?;
    }
  }

  lemma VectorConsumes<T(!new)>(c: Codec<T>)
    requires Consumes(c)
    ensures Consumes(VectorCodec(c))
  {
    forall b: Bytes | DecVector(c, b).Success?
      ensures |DecVector(c, b).value.1| <= |b| && DecVector(c, b).value.1 == b[|b| - |DecVector(c, b).value.1|..]
    {
      var (n, rest) := DecUvarint(b).value;
      assert rest == b[|b| - |rest|..];
      AllConsume(c, n, rest);
    }
  }

  lemma PairConsumes<K(!new), V(!new)>(kc: Codec<K>, vc: Codec<V>)
    requires Consumes(kc) && Consumes(vc)
    ensures Consumes(PairCodec(kc, vc))
  {
    forall b: Bytes | DecPair(kc, vc, b).Success?
      ensures |DecPair(kc, vc, b).value.1| <= |b| && DecPair(kc, vc, b).value.1 == b[|b| - |DecPair(kc, vc, b).value.1|..]
    {
      var rest := kc.dec(b).value.1;
      assert vc.dec(rest).Success?;
    }
  }

  lemma MapConsumes<K(!new), V(!new)>(kc: Codec<K>, vc: Codec<V>, order: map<K, V> -> seq<(K, V)>)
    requires Consumes(kc) && Consumes(vc)
    ensures Consumes(MapCodec(kc, vc, order))
  {
    PairConsumes(kc, vc);
    forall b: Bytes | DecMap(kc, vc, b).Success?
      ensures |DecMap(kc, vc, b).value.1| <= |b| && DecMap(kc, vc, b).value.1 == b[|b| - |DecMap(kc, vc, b).value.1|..]
    {
      var (n, rest) := DecUvarint(b).value;
      assert rest == b[|b| - |rest|..];
      MapReaderIsExact(kc, vc, n, rest);
      AllConsume(PairCodec(kc, vc), n, rest);
    }
  }

  // ---------------------------------------------------------------- failing early is failing

  lemma {:induction false} AllFails<T>(c: Codec<T>, xs: seq<T>, i: nat)
    requires i <= |xs| && EncAll(c, xs[..i]).Failure?
    ensures EncAll(c, xs) == EncAll(c, xs[..i])
    decreases |xs| - i
  {
    if i < |xs| {
      assert xs[..i + 1][..i] == xs[..i];
      AllFails(c, xs, i + 1);
    } else {
      assert xs[..i] == xs;
    }
  }

  lemma {:induction false} ReadAllFails<T>(c: Codec<T>, i: nat, n: nat, b: Bytes)
    requires i <= n && DecAll(c, i, b).Failure?
    ensures DecAll(c, n, b) == Failure(DecAll(c, i, b).error)
    decreases n - i
  {
    if i < n {
      ReadAllFails(c, i, n - 1, b);
    }
  }

  lemma {:induction false} ReadPairsFails<K, V>(kc: Codec<K>, vc: Codec<V>, i: nat, n: nat, b: Bytes)
    requires i <= n && DecMapPairs(kc, vc, i, b).Failure?
    ensures DecMapPairs(kc, vc, n, b) == Failure(DecMapPairs(kc, vc, i, b).error)
    decreases n - i
  {
    if i < n {
      ReadPairsFails(kc, vc, i, n - 1, b);
    }
  }

  lemma EncAllOfNone<T>(c: Codec<T>, xs: seq<T>)
    ensures EncAll(c, xs[..0]) == Success([])
  {}

  lemma EncOneMore<T>(c: Codec<T>, xs: seq<T>, i: nat)
    requires i < |xs| && EncAll(c, xs[..i]).Success?
    ensures EncAll(c, xs[..i + 1]) == match c.enc(xs[i])
                                      case Success(b) => Success(EncAll(c, xs[..i]).value + b)
                                      case Failure(e) => Failure(e)
  {
    assert xs[..i + 1][..i] == xs[..i];
  }

  /** One more element of a vector is written: the vector fails with it, or grows by it. */
  lemma WriteStep<T>(c: Codec<T>, xs: seq<T>, i: nat, size: Bytes, before: Bytes, after: Bytes, failed: Option<Error>)
    requires i < |xs| && EncAll(c, xs[..i]).Success? && before == size + EncAll(c, xs[..i]).value
    requires Wrote(before, after, failed, c.enc(xs[i]))
    ensures failed == None ==> EncAll(c, xs[..i + 1]).Success? && after == size + EncAll(c, xs[..i + 1]).value
    ensures failed.Some? ==> EncAll(c, xs) == Failure(failed.value) && size <= after
  {
    hide EncAll;
    EncOneMore(c, xs, i);
    var written := EncAll(c, xs[..i]).value;
    match c.enc(xs[i])
    case Success(b) => assert size + written + b == size + (written + b);
    case Failure(_) => AllFails(c, xs, i + 1);
  }

  /** One more element of a vector is read: the vector fails with it, or grows by it. */
  lemma ReadStep<T>(c: Codec<T>, n: nat, i: nat, b: Bytes, before: seq<T>, rest: Bytes, x: Result<T>, left: Bytes)
    requires i < n && DecAll(c, i, b) == Success((before, rest))
    requires Took(c.dec(rest), x, left)
    ensures x.Success? ==> DecAll(c, i + 1, b) == Success((before + [x.value], left))
    ensures x.Failure? ==> DecAll(c, n, b) == Failure(x.error)
  {
    if x.Failure? {
      ReadAllFails(c, i + 1, n, b);
    }
  }

  lemma NothingRead<T>(c: Codec<T>, b: Bytes)
    ensures DecAll(c, 0, b) == Success(([], b))
  {}

  lemma NoPairRead<K, V>(kc: Codec<K>, vc: Codec<V>, b: Bytes)
    ensures DecMapPairs(kc, vc, 0, b) == Success((map[], b))
  {}

  /** One more pair of a map is read: the map fails with it, or grows by it. */
  lemma ReadPairStep<K, V>(kc: Codec<K>, vc: Codec<V>, n: nat, i: nat, b: Bytes, before: map<K, V>, rest: Bytes,
                           p: Result<(K, V)>, left: Bytes)
    requires i < n && DecMapPairs(kc, vc, i, b) == Success((before, rest))
    requires Took(DecPair(kc, vc, rest), p, left)
    ensures p.Success? && p.value.0 !in before ==>
              DecMapPairs(kc, vc, i + 1, b) == Success((before[p.value.0 := p.value.1], left))
    ensures p.Success? && p.value.0 in before ==> DecMapPairs(kc, vc, n, b) == Failure(BadFormat)
    ensures p.Failure? ==> DecMapPairs(kc, vc, n, b) == Failure(p.error)
  {
    if p.Failure? || p.value.0 in before {
      ReadPairsFails(kc, vc, i + 1, n, b);
    }
  }

  // ---------------------------------------------------------------- the generator

  /** The number that `width` octets hold at most, from its top octet and the octets below. */
  function MaxOfOctets(width: nat): (m: nat)
    requires 1 <= width
    ensures m + 1 == Pow256(width)
  {
    0xFF * Pow256(width - 1) + (Pow256(width - 1) - 1)
  }

  class Generator {
    var str: Bytes

    constructor ()
      ensures str == []
    {
      str := [];
    }

    method PushByteU(c: Byte)
      modifies this
      ensures str == old(str) + [c]
    {
      str := str + [c];
    }

    /** `size` is only asserted. */
    method PushBytesN(size: nat, data: Bytes) returns (failed: Option<Error>)
      modifies this
      ensures failed == if size == |data| then None else Some(AssertionFailed)
      ensures str == if size == |data| then old(str) + data else old(str)
    {
      if size != |data| {
        return Some(AssertionFailed);
      }
      str := str + data;
      return None;
    }

    /** Nothing is written when the value is refused. */
    method PushIntegerU(width: nat, value: nat) returns (failed: Option<Error>)
      requires 1 <= width <= 8 && value < Pow256(8)
      modifies this
      ensures Wrote(old(str), str, failed, EncFixed(value, width))
      ensures failed.Some? ==> str == old(str)
    {
      if value >= MaxOfOctets(width) {
        return Some(ValueTooBig);
      }
      var divider := Pow256(width - 1);
      var i := 0;
      while i < width
        invariant i <= width
        invariant i < width ==> divider == Pow256(width - 1 - i)
        invariant str == old(str) + BigEndian(value, width)[..i]
      {
        DigitAt(value, width, i);
        PushByteU(value / divider % 256);
        assert BigEndian(value, width)[..i + 1] == BigEndian(value, width)[..i] + [BigEndian(value, width)[i]];
        divider := divider / 256;
        i := i + 1;
      }
      return None;
    }

    /** The one refused value, 2^64 - 1, leaves its marker behind. */
    method PushIntegerUvarint(value: nat) returns (failed: Option<Error>)
      requires value < Pow256(8)
      modifies this
      ensures Wrote(old(str), str, failed, EncUvarint(value))
      ensures failed.Some? ==> value == Pow256(8) - 1 && str == old(str) + [0xFF]
    {
      Powers();
      ghost var before := str;
      if value < 0xFD {
        failed := PushIntegerU(1, value);
      } else if value < 0xFFFF {
        PushByteU(0xFD);
        failed := PushIntegerU(2, value);
        assert str == before + ([0xFD] + BigEndian(value, 2));
      } else if value < 0xFFFF_FFFF {
        PushByteU(0xFE);
        failed := PushIntegerU(4, value);
        assert str == before + ([0xFE] + BigEndian(value, 4));
      } else {
        PushByteU(0xFF);
        failed := PushIntegerU(8, value);
        if failed == None {
          assert str == before + ([0xFF] + BigEndian(value, 8));
        }
      }
    }

    method PushVarstring(data: Bytes) returns (failed: Option<Error>)
      requires |data| < Pow256(8)
      modifies this
      ensures Wrote(old(str), str, failed, EncVarstring(data))
    {
      failed := PushIntegerUvarint(|data|);
      if failed == None {
        ghost var size := EncUvarint(|data|).value;
        failed := PushBytesN(|data|, data);
        assert str == old(str) + (size + data);
      }
    }

    /** A string behind a length of fixed width. */
    method PushBytesSizeOctets(width: nat, data: Bytes) returns (failed: Option<Error>)
      requires 1 <= width <= 4 && |data| < Pow256(8)
      modifies this
      ensures Wrote(old(str), str, failed, EncSized(width, data))
    {
      failed := PushIntegerU(width, |data|);
      if failed == None {
        ghost var size := BigEndian(|data|, width);
        str := str + data;
        assert str == old(str) + (size + data);
      }
    }

    method PushObject<T>(c: Codec<T>, x: T) returns (failed: Option<Error>)
      modifies this
      ensures Wrote(old(str), str, failed, c.enc(x))
    {
      match c.enc(x)
      case Success(b) =>
        str := str + b;
        failed := None;
      case Failure(e) =>
        failed := Some(e);
    }

    method PushVectorObject<T>(c: Codec<T>, xs: seq<T>) returns (failed: Option<Error>)
      requires |xs| < Pow256(8)
      modifies this
      ensures Wrote(old(str), str, failed, EncVector(c, xs))
    {
      hide EncUvarint, EncAll, Pow256;
      failed := PushIntegerUvarint(|xs|);
      if failed != None {
        return;
      }
      ghost var size := str;
      assert size == old(str) + EncUvarint(|xs|).value;
      EncAllOfNone(c, xs);
      var i := 0;
      while i < |xs|
        invariant i <= |xs| && failed == None
        invariant EncAll(c, xs[..i]).Success? && str == size + EncAll(c, xs[..i]).value
      {
        ghost var before := str;
        failed := PushObject(c, xs[i]);
        WriteStep(c, xs, i, size, before, str, failed);
        if failed != None {
          return;
        }
        i := i + 1;
      }
      assert xs[..i] == xs;
      assert str == old(str) + (EncUvarint(|xs|).value + EncAll(c, xs).value);
    }

    /** `pairs` is the content of the map in the order in which its type goes through it. */
    method PushMapObject<K, V>(kc: Codec<K>, vc: Codec<V>, pairs: seq<(K, V)>) returns (failed: Option<Error>)
      requires |pairs| < Pow256(8)
      modifies this
      ensures Wrote(old(str), str, failed, EncVector(PairCodec(kc, vc), pairs))
    {
      hide EncUvarint, EncAll, Pow256, EncPair;
      failed := PushIntegerUvarint(|pairs|);
      if failed != None {
        return;
      }
      ghost var size, pc := str, PairCodec(kc, vc);
      assert size == old(str) + EncUvarint(|pairs|).value;
      EncAllOfNone(pc, pairs);
      var i := 0;
      while i < |pairs|
        invariant i <= |pairs| && failed == None
        invariant EncAll(pc, pairs[..i]).Success? && str == size + EncAll(pc, pairs[..i]).value
      {
        ghost var before := str;
        failed := PushPair(kc, vc, pairs[i]);
        WriteStep(pc, pairs, i, size, before, str, failed);
        if failed != None {
          return;
        }
        i := i + 1;
      }
      assert pairs[..i] == pairs;
      assert str == old(str) + (EncUvarint(|pairs|).value + EncAll(pc, pairs).value);
    }

    method PushPair<K, V>(kc: Codec<K>, vc: Codec<V>, p: (K, V)) returns (failed: Option<Error>)
      modifies this
      ensures Wrote(old(str), str, failed, EncPair(kc, vc, p))
    {
      failed := PushObject(kc, p.0);
      if failed == None {
        ghost var key := kc.enc(p.0).value;
        failed := PushObject(vc, p.1);
        if failed == None {
          assert str == old(str) + (key + vc.enc(p.1).value);
        }
      }
    }
  }

  // ---------------------------------------------------------------- the parser

  class Parser {
    const data: Bytes
    var now: nat

    ghost predicate Valid()
      reads this
    {
      now <= |data|
    }

    /** The bytes not read yet. */
    ghost function Rest(): Bytes
      requires Valid()
      reads this
    {
      data[now..]
    }

    /** Over a caller's buffer, which may be empty. */
    constructor (data: Bytes)
      ensures Valid() && this.data == data && now == 0
    {
      this.data := data;
      now := 0;
    }

    /** Over a caller's string: an empty one is refused. */
    static method OverString(data: Bytes) returns (r: Result<Parser>)
      ensures data == [] ==> r == Failure(InvalidInput)
      ensures data != [] ==> r.Success? && fresh(r.value) && r.value.Valid() && r.value.Rest() == data
    {
      if data == [] {
        return Failure(InvalidInput);
      }
      var p := new Parser(data);
      return Success(p);
    }

    predicate IsEnd()
      requires Valid()
      reads this
      ensures IsEnd() <==> Rest() == []
    {
      now >= |data|
    }

    method PopByteU() returns (r: Result<Byte>)
      requires Valid()
      modifies this
      ensures Valid()
      ensures Took(CharCodec().dec(old(Rest())), r, Rest())
      ensures r.Failure? ==> now == old(now)
    {
      if !(now < |data|) {
        return Failure(ReadPastEnd);
      }
      var c := data[now];
      now := now + 1;
      return Success(c);
    }

    /** Reads one expected byte; a different one is put back. */
    method PopByteSkip(c: Byte) returns (failed: Option<Error>)
      requires Valid()
      modifies this
      ensures Valid()
      ensures failed == (if old(Rest()) == [] then Some(ReadPastEnd)
                         else if old(Rest())[0] != c then Some(WrongDelimiter) else None)
      ensures now == old(now) + if failed == None then 1 else 0
    {
      var was := PopByteU();
      match was
      case Failure(e) =>
        failed := Some(e);
      case Success(b) =>
        if b != c {
          now := now - 1;
          return Some(WrongDelimiter);
        }
        failed := None;
    }

    method PopBytesN(size: nat) returns (r: Result<Bytes>)
      requires Valid()
      modifies this
      ensures Valid()
      ensures Took(TakeBytes(size, old(Rest())), r, Rest())
      ensures r.Failure? ==> now == old(now)
    {
      if size == 0 {
        return Success([]);
      }
      if !(now < |data|) || !(|data| - now >= size) {
        return Failure(ReadPastEnd);
      }
      var from := now;
      now := now + size;
      assert old(Rest())[..size] == data[from..from + size];
      return Success(data[from..from + size]);
    }

    /** As `PopBytesN`, without the bytes. */
    method SkipBytesN(size: nat) returns (failed: Option<Error>)
      requires Valid()
      modifies this
      ensures Valid()
      ensures failed == (if size <= |old(Rest())| then None else Some(ReadPastEnd))
      ensures now == old(now) + if failed == None then size else 0
    {
      if size == 0 {
        return None;
      }
      if !(now < |data|) || !(|data| - now >= size) {
        return Some(ReadPastEnd);
      }
      now := now + size;
      return None;
    }

    /** A short input is read to its end before it is refused. */
    method PopIntegerU(width: nat) returns (r: Result<nat>)
      requires Valid() && 1 <= width <= 8
      modifies this
      ensures Valid()
      ensures Took(DecFixed(width, old(Rest())), r, Rest())
      ensures r.Success? ==> r.value < Pow256(width)
      ensures r.Failure? ==> now == |data|
    {
      hide Pow256, FromBigEndian;
      ghost var b := Rest();
      var value := 0;
      NoDigits(b, width);
      var multiplier := Pow256(width - 1);
      var i := 0;
      while i < width
        invariant i <= width && i <= |b|
        invariant Valid() && now == old(now) + i
        invariant i < width ==> multiplier == Pow256(width - 1 - i)
        invariant value == FromBigEndian(b[..i]) * Pow256(width - i)
      {
        var popped := PopByteU();
        if popped.Failure? {
          return Failure(popped.error);
        }
        AppendDigit(b, i, width);
        if i + 1 < width {
          PowerBelow(width - 1 - i);
        }
        value := value + popped.value * multiplier;
        multiplier := multiplier / 256;
        i := i + 1;
      }
      ValueFits(b[..width]);
      AllDigits(b, width);
      return Success(value);
    }

    method PopIntegerUvarint() returns (r: Result<nat>)
      requires Valid()
      modifies this
      ensures Valid()
      ensures Took(DecUvarint(old(Rest())), r, Rest())
      ensures r.Success? ==> r.value < Pow256(8)
      ensures r.Failure? ==> now == |data|
    {
      Powers();
      ghost var b := Rest();
      var first :- PopByteU();
      assert Rest() == b[1..];
      if first < 0xFD {
        return Success(first);
      } else if first == 0xFD {
        r := PopIntegerU(2);
      } else if first == 0xFE {
        r := PopIntegerU(4);
      } else {
        r := PopIntegerU(8);
      }
    }

    method PopVarstring() returns (r: Result<Bytes>)
      requires Valid()
      modifies this
      ensures Valid()
      ensures Took(DecVarstring(old(Rest())), r, Rest())
    {
      var size :- PopIntegerUvarint();
      if size > SANE_MAX_SIZE {
        return Failure(AssertionFailed);
      }
      r := PopBytesN(size);
    }

    method PopBytesSizeOctets(width: nat) returns (r: Result<Bytes>)
      requires Valid() && 1 <= width <= 4
      modifies this
      ensures Valid()
      ensures Took(DecSized(width, old(Rest())), r, Rest())
    {
      var size :- PopIntegerU(width);
      r := PopBytesN(size);
    }

    method PopObject<T(!new)>(c: Codec<T>) returns (r: Result<T>)
      requires Valid() && Consumes(c)
      modifies this
      ensures Valid()
      ensures Took(c.dec(old(Rest())), r, Rest())
    {
      match c.dec(data[now..])
      case Success((x, rest)) =>
        assert c.dec(data[now..]).value.1 == rest;
        now := |data| - |rest|;
        r := Success(x);
      case Failure(e) =>
        r := Failure(e);
    }

    method PopVectorObject<T(!new)>(c: Codec<T>) returns (r: Result<seq<T>>)
      requires Valid() && Consumes(c)
      modifies this
      ensures Valid()
      ensures Took(DecVector(c, old(Rest())), r, Rest())
    {
      hide DecUvarint, DecAll, Consumes, Pow256;
      var size :- PopIntegerUvarint();
      ghost var b := Rest();
      assert DecUvarint(old(Rest())) == Success((size, b));
      var ret: seq<T> := [];
      var i := 0;
      NothingRead(c, b);
      while i < size
        invariant i <= size && Valid()
        invariant DecAll(c, i, b) == Success((ret, Rest()))
      {
        ghost var rest := Rest();
        var x := PopObject(c);
        ReadStep(c, size, i, b, ret, rest, x, Rest());
        if x.Failure? {
          return Failure(x.error);
        }
        ret := ret + [x.value];
        i := i + 1;
      }
      return Success(ret);
    }

    /** A key and then a value. */
    method PopPair<K(!new), V(!new)>(kc: Codec<K>, vc: Codec<V>) returns (r: Result<(K, V)>)
      requires Valid() && Consumes(kc) && Consumes(vc)
      modifies this
      ensures Valid()
      ensures Took(DecPair(kc, vc, old(Rest())), r, Rest())
    {
      hide Consumes;
      var key :- PopObject(kc);
      var value :- PopObject(vc);
      return Success((key, value));
    }

    /** A repeated key is refused. */
    method PopMapObject<K(==,!new), V(!new)>(kc: Codec<K>, vc: Codec<V>) returns (r: Result<map<K, V>>)
      requires Valid() && Consumes(kc) && Consumes(vc)
      modifies this
      ensures Valid()
      ensures Took(DecMap(kc, vc, old(Rest())), r, Rest())
    {
      hide DecUvarint, DecMapPairs, DecPair, Consumes, Pow256;
      var size :- PopIntegerUvarint();
      ghost var b := Rest();
      assert DecUvarint(old(Rest())) == Success((size, b));
      var ret: map<K, V> := map[];
      var i := 0;
      NoPairRead(kc, vc, b);
      while i < size
        invariant i <= size && Valid()
        invariant DecMapPairs(kc, vc, i, b) == Success((ret, Rest())) && |ret| == i
      {
        ghost var rest := Rest();
        var pair := PopPair(kc, vc);
        ReadPairStep(kc, vc, size, i, b, ret, rest, pair, Rest());
        if pair.Failure? {
          return Failure(pair.error);
        }
        if pair.value.0 in ret {
          return Failure(BadFormat);
        }
        ret := ret[pair.value.0 := pair.value.1];
        i := i + 1;
      }
      assert |ret| == size;
      return Success(ret);
    }

    // -------------------------------------------------------------- the readers of standard types

    method PopVectorString() returns (r: Result<seq<Bytes>>)
      requires Valid()
      modifies this
      ensures Valid()
      ensures Took(DecVector(StringCodec(), old(Rest())), r, Rest())
    {
      hide DecUvarint, DecAll, DecVarstring, Pow256;
      var size :- PopIntegerUvarint();
      ghost var b, c := Rest(), StringCodec();
      assert DecUvarint(old(Rest())) == Success((size, b));
      var ret: seq<Bytes> := [];
      var i := 0;
      NothingRead(c, b);
      while i < size
        invariant i <= size && Valid()
        invariant DecAll(c, i, b) == Success((ret, Rest()))
      {
        ghost var rest := Rest();
        var x := PopVarstring();
        ReadStep(c, size, i, b, ret, rest, x, Rest());
        if x.Failure? {
          return Failure(x.error);
        }
        ret := ret + [x.value];
        i := i + 1;
      }
      return Success(ret);
    }

    /** A vector of strings by the object reader: it reads what `PopVectorString` reads. */
    method PopStrings() returns (r: Result<seq<Bytes>>)
      requires Valid()
      modifies this
      ensures Valid()
      ensures Took(DecVector(StringCodec(), old(Rest())), r, Rest())
    {
      StringConsumes();
      r := PopVectorObject(StringCodec());
    }

    /** A map from strings to vectors of strings. */
    method PopStringsByName() returns (r: Result<map<Bytes, seq<Bytes>>>)
      requires Valid()
      modifies this
      ensures Valid()
      ensures Took(DecMap(StringCodec(), VectorCodec(StringCodec()), old(Rest())), r, Rest())
    {
      StringConsumes();
      VectorConsumes(StringCodec());
      r := PopMapObject(StringCodec(), VectorCodec(StringCodec()));
    }

    /** A vector of maps, whatever the order in which they were written. */
    method PopStringMaps(ghost order: map<Bytes, Bytes> -> seq<(Bytes, Bytes)>) returns (r: Result<seq<map<Bytes, Bytes>>>)
      requires Valid()
      modifies this
      ensures Valid()
      ensures Took(DecVector(MapCodec(StringCodec(), StringCodec(), order), old(Rest())), r, Rest())
    {
      StringConsumes();
      var unordered := (m: map<Bytes, Bytes>) => [];
      MapConsumes(StringCodec(), StringCodec(), unordered);
      r := PopVectorObject(MapCodec(StringCodec(), StringCodec(), unordered));
      OrderDoesNotMatter(unordered, order, old(Rest()));
    }
  }

  /** The order in which a map is written does not matter to its reader. */
  lemma {:induction false} OrderDoesNotMatterUpTo(a: map<Bytes, Bytes> -> seq<(Bytes, Bytes)>,
                                                  c: map<Bytes, Bytes> -> seq<(Bytes, Bytes)>, n: nat, b: Bytes)
    ensures DecAll(MapCodec(StringCodec(), StringCodec(), a), n, b) == DecAll(MapCodec(StringCodec(), StringCodec(), c), n, b)
    decreases n
  {
    hide DecMap;
    if n > 0 {
      OrderDoesNotMatterUpTo(a, c, n - 1, b);
    }
  }

  lemma OrderDoesNotMatter(a: map<Bytes, Bytes> -> seq<(Bytes, Bytes)>, c: map<Bytes, Bytes> -> seq<(Bytes, Bytes)>, b: Bytes)
    ensures DecVector(MapCodec(StringCodec(), StringCodec(), a), b) == DecVector(MapCodec(StringCodec(), StringCodec(), c), b)
  {
    if DecUvarint(b).Success? {
      OrderDoesNotMatterUpTo(a, c, DecUvarint(b).value.0, DecUvarint(b).value.1);
    }
  }
}
