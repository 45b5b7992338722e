/** The byte format of the serializer: fixed-width and variable-length integers, and strings behind their length. */
module SerialFormat {
  import opened Basics

  const SANE_MAX_SIZE: nat := 50000000

  // ---------------------------------------------------------------- big-endian numbers

  function Pow256(n: nat): (p: nat)
    ensures p >= 1
  {
    if n == 0 then 1 else 256 * Pow256(n - 1)
  }

  function BigEndian(v: nat, width: nat): (b: Bytes)
    ensures |b| == width
  {
    if width == 0 then [] else BigEndian(v / 256, width - 1) + [v % 256]
  }

  function FromBigEndian(b: Bytes): nat {
    if b == [] then 0 else FromBigEndian(b[..|b| - 1]) * 256 + b[|b| - 1]
  }

  lemma {:induction false} BigEndianReadsBack(v: nat, width: nat)
    requires v < Pow256(width)
    ensures FromBigEndian(BigEndian(v, width)) == v
  {
    if width > 0 {
      BigEndianReadsBack(v / 256, width - 1);
      assert BigEndian(v, width)[..width - 1] == BigEndian(v / 256, width - 1);
    }
  }

  lemma {:induction false} ValueFits(b: Bytes)
    ensures FromBigEndian(b) < Pow256(|b|)
  {
    if b != [] {
      ValueFits(b[..|b| - 1]);
    }
  }

  lemma AtLeastOneMultiple(d: nat, k: int)
    requires k >= 1
    ensures d * k >= d
  {}

  lemma QuotientOf(v: nat, d: nat, q: nat, r: nat)
    requires d > 0 && v == d * q + r && r < d
    ensures v / d == q
  {
    var k := q - v / d;
    assert d * k == v % d - r by {
      assert d * k == d * q - d * (v / d);
      assert v == d * (v / d) + v % d;
    }
    if k >= 1 {
      AtLeastOneMultiple(d, k);
    } else if k <= -1 {
      AtLeastOneMultiple(d, -k);
    }
  }

  lemma DivideTwice(v: nat, p: nat)
    requires p > 0
    ensures v / 256 / p == v / (256 * p)
  {
    var q := v / 256 / p;
    var r := v / 256 % p;
    assert v / 256 == p * q + r;
    assert v == 256 * (p * q + r) + v % 256;
    assert 256 * (p * q + r) == 256 * p * q + 256 * r;
    assert 256 * r + v % 256 < 256 * p;
    QuotientOf(v, 256 * p, q, 256 * r + v % 256);
  }

  /** The digit that the writing loop computes with its divider. */
  lemma {:induction false} DigitAt(v: nat, width: nat, i: nat)
    requires i < width
    ensures BigEndian(v, width)[i] == v / Pow256(width - 1 - i) % 256
  {
    if i < width - 1 {
      DigitAt(v / 256, width - 1, i);
      DivideTwice(v, Pow256(width - 2 - i));
    }
  }

  // ---------------------------------------------------------------- writing

  /** A field of `width` octets takes every value below its maximum; the maximum itself is refused. */
  function EncFixed(v: nat, width: nat): Result<Bytes> {
    if v >= Pow256(width) - 1 then Failure(ValueTooBig) else Success(BigEndian(v, width))
  }

  function EncUvarint(v: nat): Result<Bytes> {
    if v < 0xFD then EncFixed(v, 1)
    else
      var (marker: Byte, width) := if v < 0xFFFF then (0xFD, 2) else if v < 0xFFFF_FFFF then (0xFE, 4) else (0xFF, 8);
      var b :- EncFixed(v, width);
      Success([marker] + b)
  }

  function EncVarstring(s: Bytes): Result<Bytes> {
    var b :- EncUvarint(|s|);
    Success(b + s)
  }

  /** A string behind a length of fixed width. */
  function EncSized(width: nat, s: Bytes): Result<Bytes> {
    var b :- EncFixed(|s|, width);
    Success(b + s)
  }

  // ---------------------------------------------------------------- reading: the value and the bytes after it

  function TakeBytes(n: nat, b: Bytes): Result<(Bytes, Bytes)> {
    if |b| < n then Failure(ReadPastEnd) else Success((b[..n], b[n..]))
  }

  function DecFixed(width: nat, b: Bytes): Result<(nat, Bytes)> {
    var (taken, rest) :- TakeBytes(width, b);
    Success((FromBigEndian(taken), rest))
  }

  function DecUvarint(b: Bytes): Result<(nat, Bytes)> {
    if b == [] then Failure(ReadPastEnd)
    else if b[0] < 0xFD then Success((b[0], b[1..]))
    else DecFixed(if b[0] == 0xFD then 2 else if b[0] == 0xFE then 4 else 8, b[1..])
  }

  /** A length above the sane maximum is a failed assertion. */
  function DecVarstring(b: Bytes): Result<(Bytes, Bytes)> {
    var (n, rest) :- DecUvarint(b);
    if n > SANE_MAX_SIZE then Failure(AssertionFailed) else TakeBytes(n, rest)
  }

  function DecSized(width: nat, b: Bytes): Result<(Bytes, Bytes)> {
    var (n, rest) :- DecFixed(width, b);
    TakeBytes(n, rest)
  }

  // ---------------------------------------------------------------- what is written is read back

  lemma Powers()
    ensures Pow256(1) == 0x100 && Pow256(2) == 0x1_0000 && Pow256(4) == 0x1_0000_0000 && Pow256(8) == 0x1_0000_0000_0000_0000
  {
    assert Pow256(3) == 256 * Pow256(2);
    assert Pow256(5) == 256 * Pow256(4);
    assert Pow256(6) == 256 * Pow256(5);
    assert Pow256(7) == 256 * Pow256(6);
  }

  /** A fixed-width field accepts exactly the values below its maximum, and gives each back with any bytes after it. */
  lemma FixedReadsBack(v: nat, width: nat, suffix: Bytes)
    ensures EncFixed(v, width).Success? <==> v < Pow256(width) - 1
    ensures EncFixed(v, width).Success? ==> DecFixed(width, EncFixed(v, width).value + suffix) == Success((v, suffix))
  {
    if v < Pow256(width) - 1 {
      BigEndianReadsBack(v, width);
      var b := BigEndian(v, width);
      assert (b + suffix)[..width] == b && (b + suffix)[width..] == suffix;
    }
  }

  /** A string behind a length of fixed width is accepted exactly below that width's maximum, and read back. */
  lemma SizedReadsBack(width: nat, s: Bytes, suffix: Bytes)
    ensures EncSized(width, s).Success? <==> |s| < Pow256(width) - 1
    ensures EncSized(width, s).Success? ==> DecSized(width, EncSized(width, s).value + suffix) == Success((s, suffix))
  {
    FixedReadsBack(|s|, width, s + suffix);
    if EncSized(width, s).Success? {
      assert EncSized(width, s).value + suffix == EncFixed(|s|, width).value + (s + suffix);
      assert (s + suffix)[..|s|] == s && (s + suffix)[|s|..] == suffix;
    }
  }

  lemma NoDigits(b: Bytes, width: nat)
    ensures FromBigEndian(b[..0]) * Pow256(width) == 0
  {}

  lemma AllDigits(b: Bytes, width: nat)
    requires width <= |b|
    ensures FromBigEndian(b[..width]) * Pow256(0) == FromBigEndian(b[..width])
  {}

  lemma PowerBelow(n: nat)
    requires n >= 1
    ensures Pow256(n) / 256 == Pow256(n - 1)
  {}

  /** The digit that the reading loop adds with its multiplier. */
  lemma AppendDigit(b: Bytes, i: nat, width: nat)
    requires i < width && i < |b|
    ensures FromBigEndian(b[..i + 1]) * Pow256(width - (i + 1))
         == FromBigEndian(b[..i]) * Pow256(width - i) + b[i] * Pow256(width - 1 - i)
  {
    assert b[..i + 1][..i] == b[..i];
    var high, p := FromBigEndian(b[..i]), Pow256(width - 1 - i);
    assert (high * 256 + b[i]) * p == high * (256 * p) + b[i] * p;
  }

  /** The number of octets of a variable-length integer. */
  function UvarintSize(v: nat): nat {
    if v < 0xFD then 1 else if v < 0xFFFF then 3 else if v < 0xFFFF_FFFF then 5 else 9
  }

  /** Every value below 2^64 - 1 is written on exactly 1, 3, 5 or 9 octets and read back with any bytes after it. */
  lemma UvarintReadsBack(v: nat, suffix: Bytes)
    ensures EncUvarint(v).Success? <==> v < Pow256(8) - 1
    ensures EncUvarint(v).Success? ==>
              && |EncUvarint(v).value| == UvarintSize(v)
              && DecUvarint(EncUvarint(v).value + suffix) == Success((v, suffix))
  {
    Powers();
    if v < 0xFD {
      FixedReadsBack(v, 1, suffix);
      assert BigEndian(v, 1) == [v];
      assert ([v] + suffix)[1..] == suffix;
    } else {
      var width := if v < 0xFFFF then 2 else if v < 0xFFFF_FFFF then 4 else 8;
      FixedReadsBack(v, width, suffix);
      if v < Pow256(8) - 1 {
        var e, b := EncUvarint(v).value, BigEndian(v, width);
        assert (e + suffix)[1..] == b + suffix;
      }
    }
  }

  /** The octets of a variable-length integer: itself below 253, else its marker and the octets high to low. */
  lemma UvarintOctets(v: nat)
    requires EncUvarint(v).Success?
    ensures var e := EncUvarint(v).value;
            && (v < 253 ==> e == [v])
            && (v >= 253 ==>
                  && e[0] == (if v < 0xFFFF then 253 else if v < 0xFFFF_FFFF then 254 else 255)
                  && forall i :: 1 <= i < |e| ==> e[i] == v / Pow256(|e| - 1 - i) % 256)
  {
    Powers();
    UvarintReadsBack(v, []);
    var e := EncUvarint(v).value;
    if v < 253 {
      assert BigEndian(v, 1) == [v];
    } else {
      var width := |e| - 1;
      assert e == [e[0]] + BigEndian(v, width);
      forall i | 1 <= i < |e| ensures e[i] == v / Pow256(|e| - 1 - i) % 256 {
        DigitAt(v, width, i - 1);
      }
    }
  }

  /** No encoding is a proper prefix of another: a prefix is an encoding of the same value. */
  lemma UvarintPrefixFree(u: nat, v: nat)
    requires EncUvarint(u).Success? && EncUvarint(v).Success?
    requires EncUvarint(u).value <= EncUvarint(v).value
    ensures u == v
  {
    var a, b := EncUvarint(u).value, EncUvarint(v).value;
    UvarintReadsBack(u, b[|a|..]);
    UvarintReadsBack(v, []);
    assert b == a + b[|a|..] && b + [] == b;
  }

  /** A string is read back exactly when it is at most fifty million bytes long; a longer one trips the reader's assertion. */
  lemma VarstringReadsBack(s: Bytes, suffix: Bytes)
    requires EncVarstring(s).Success?
    ensures |s| <= SANE_MAX_SIZE ==> DecVarstring(EncVarstring(s).value + suffix) == Success((s, suffix))
    ensures |s| > SANE_MAX_SIZE ==> DecVarstring(EncVarstring(s).value + suffix) == Failure(AssertionFailed)
  {
    var e := EncUvarint(|s|).value;
    UvarintReadsBack(|s|, s + suffix);
    assert EncVarstring(s).value + suffix == e + (s + suffix);
    assert (s + suffix)[..|s|] == s && (s + suffix)[|s|..] == suffix;
  }

  lemma VarstringEncodes(s: Bytes)
    ensures EncVarstring(s).Success? <==> |s| < Pow256(8) - 1
    ensures |s| <= SANE_MAX_SIZE ==> EncVarstring(s).Success?
  {
    UvarintReadsBack(|s|, []);
    Powers();
  }
}
