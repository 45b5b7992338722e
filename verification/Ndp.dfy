/** The ICMPv6 checksum, computed on byte-swapped words, and the two builders of a Neighbor Advertisement. */
module Ndp {
  import opened Basics

  // ---------------------------------------------------------------- sums of 16-bit words

  function Word(low: Byte, high: Byte): nat {
    (low as int) + 256 * (high as int)
  }

  /** Words with the low octet first, as a little-endian machine loads them. */
  function SumLE(b: Bytes): nat
    requires |b| % 2 == 0
    decreases |b|
  {
    if b == [] then 0 else SumLE(b[..|b| - 2]) + Word(b[|b| - 2], b[|b| - 1])
  }

  /** Words with the high octet first: network order. */
  function SumBE(b: Bytes): nat
    requires |b| % 2 == 0
    decreases |b|
  {
    if b == [] then 0 else SumBE(b[..|b| - 2]) + Word(b[|b| - 1], b[|b| - 2])
  }

  /** Adds the carries back in until none is left: the ones-complement sum. */
  function Fold(sum: nat): (r: nat)
    ensures r < 0x1_0000
    ensures r % 0xFFFF == sum % 0xFFFF
    ensures r == 0 <==> sum == 0
  {
    if sum / 0x1_0000 == 0 then sum
    else
      CarryKeepsSum(sum);
      Fold(sum / 0x1_0000 + sum % 0x1_0000)
  }

  lemma CarryKeepsSum(sum: nat)
    ensures (sum / 0x1_0000 + sum % 0x1_0000) % 0xFFFF == sum % 0xFFFF
  {
    var high, low := sum / 0x1_0000, sum % 0x1_0000;
    assert sum == (high + low) + 0xFFFF * high;
    AddMultiple(high + low, high);
  }

  lemma AddMultiple(x: nat, k: nat)
    ensures (x + 0xFFFF * k) % 0xFFFF == x % 0xFFFF
  {}

  lemma SumLEOfConcat(a: Bytes, b: Bytes)
    requires |a| % 2 == 0 && |b| % 2 == 0
    ensures SumLE(a + b) == SumLE(a) + SumLE(b)
    decreases |b|
  {
    if b == [] {
      assert a + b == a;
    } else {
      assert (a + b)[..|a + b| - 2] == a + b[..|b| - 2];
      SumLEOfConcat(a, b[..|b| - 2]);
    }
  }

  /** Byte order does not matter to a ones-complement sum: swapping the octets of every word multiplies it by 256. */
  lemma {:induction false} SwapMultiplies(b: Bytes)
    requires |b| % 2 == 0
    ensures SumBE(b) % 0xFFFF == 256 * SumLE(b) % 0xFFFF
    decreases |b|
  {
    if b != [] {
      var init, low: int, high: int := b[..|b| - 2], b[|b| - 2], b[|b| - 1];
      SwapMultiplies(init);
      SameRemainderPlus(SumBE(init), 256 * SumLE(init), 256 * low + high);
      assert 256 * SumLE(b) == 256 * SumLE(init) + (256 * low + high) + 0xFFFF * high;
      AddMultiple(256 * SumLE(init) + (256 * low + high), high);
    }
  }

  lemma SameRemainderPlus(x: nat, y: nat, z: nat)
    requires x % 0xFFFF == y % 0xFFFF
    ensures (x + z) % 0xFFFF == (y + z) % 0xFFFF
  {}

  lemma {:induction false} NonZeroSum(b: Bytes, i: nat)
    requires |b| % 2 == 0 && i < |b| && b[i] != 0
    ensures SumBE(b) > 0
    decreases |b|
  {
    if i < |b| - 2 {
      NonZeroSum(b[..|b| - 2], i);
    }
  }

  // ---------------------------------------------------------------- the checksum

  /** A 32-bit number in network order. */
  function Network32(v: nat): (b: Bytes)
    ensures |b| == 4
  {
    [v / 0x100_0000 % 256, v / 0x1_0000 % 256, v / 256 % 256, v % 256]
  }

  /** The 32-bit number that a little-endian machine sees in four octets: what `htonl` returns there. */
  function Htonl(v: nat): nat {
    var b := Network32(v);
    Word(b[0], b[1]) + 0x1_0000 * Word(b[2], b[3])
  }

  function Halves(v: nat): nat {
    v / 0x1_0000 + v % 0x1_0000
  }

  lemma HtonlWords(v: nat)
    ensures Halves(Htonl(v)) == SumLE(Network32(v))
  {
    hide Network32, Halves;
    var b := Network32(v);
    assert b[..2][..0] == [];
    assert SumLE(b[..2]) == Word(b[0], b[1]);
    HalvesOf(Word(b[0], b[1]), Word(b[2], b[3]));
  }

  lemma HalvesOf(low: nat, high: nat)
    requires low < 0x1_0000
    ensures Halves(low + 0x1_0000 * high) == low + high
  {}

  /** The pseudo-header of section 8.1 of RFC 2460: both addresses, the length, and the next header on 32 bits. */
  function PseudoHeader(addresses: Bytes, length: nat, nextHeader: nat): Bytes {
    addresses + Network32(length) + Network32(nextHeader)
  }

  /** The checksum of a message whose checksum field is still zero. */
  function ChecksumOf(addresses: Bytes, message: Bytes, nextHeader: nat): (c: nat)
    requires |addresses| == 32 && |message| % 2 == 0
    ensures c < 0x1_0000
  {
    0xFFFF - Fold(SumLE(PseudoHeader(addresses, |message|, nextHeader) + message))
  }

  /** A message with its checksum stored low octet first at `at`. */
  function Stamped(message: Bytes, at: nat, checksum: nat): Bytes
    requires at + 2 <= |message| && checksum < 0x1_0000
  {
    message[..at] + [checksum % 256, checksum / 256] + message[at + 2..]
  }

  /** What a receiver checks: the big-endian words of pseudo-header and message add up to all ones. */
  predicate Verifies(addresses: Bytes, message: Bytes, nextHeader: nat)
    requires |addresses| == 32 && |message| % 2 == 0
  {
    Fold(SumBE(PseudoHeader(addresses, |message|, nextHeader) + message)) == 0xFFFF
  }

  lemma StampAdds(message: Bytes, at: nat, checksum: nat)
    requires |message| % 2 == 0 && at % 2 == 0 && at + 2 <= |message| && checksum < 0x1_0000
    requires message[at] == 0 && message[at + 1] == 0
    ensures SumLE(Stamped(message, at, checksum)) == SumLE(message) + checksum
  {
    var before, after, c := message[..at], message[at + 2..], [checksum % 256, checksum / 256];
    assert message == before + [0, 0] + after;
    TwoOctets(0, 0);
    TwoOctets(checksum % 256, checksum / 256);
    hide SumLE;
    SumLEOfConcat(before + [0, 0], after);
    SumLEOfConcat(before, [0, 0]);
    SumLEOfConcat(before + c, after);
    SumLEOfConcat(before, c);
  }

  lemma TwoOctets(low: Byte, high: Byte)
    ensures SumLE([low, high]) == Word(low, high)
  {
    assert [low, high][..0] == [];
  }

  /**
   * The stored checksum makes the packet verify: for all addresses, every next header, and every message of even
   * non-zero length below 2^16 whose checksum field is zero and stands at an even offset.
   */
  lemma ChecksumVerifies(addresses: Bytes, message: Bytes, at: nat, nextHeader: nat)
    requires |addresses| == 32 && 0 < |message| < 0x1_0000 && |message| % 2 == 0
    requires at % 2 == 0 && at + 2 <= |message| && message[at] == 0 && message[at + 1] == 0
    ensures Verifies(addresses, Stamped(message, at, ChecksumOf(addresses, message, nextHeader)), nextHeader)
  {
    hide *;
    var stamped := Stamped(message, at, ChecksumOf(addresses, message, nextHeader));
    StampedSum(addresses, message, at, nextHeader);
    WholeNotZero(addresses, |message|, nextHeader, stamped);
    var whole := PseudoHeader(addresses, |message|, nextHeader) + stamped;
    SwapMultiplies(whole);
    MultipleOfZero(SumLE(whole));
    AllOnes(addresses, stamped, nextHeader);
  }

  lemma WholeNotZero(addresses: Bytes, length: nat, nextHeader: nat, message: Bytes)
    requires |addresses| == 32 && |message| % 2 == 0 && 0 < length < 0x1_0000
    ensures var whole := PseudoHeader(addresses, length, nextHeader) + message;
            |whole| % 2 == 0 && SumBE(whole) > 0
  {
    hide SumBE, Network32;
    var whole := PseudoHeader(addresses, length, nextHeader) + message;
    LengthNotZero(length);
    var i := if Network32(length)[2] != 0 then 34 else 35;
    assert whole[i] == Network32(length)[i - 32];
    NonZeroSum(whole, i);
  }

  /** A sum that is zero up to carries, but not zero, folds to all ones. */
  lemma AllOnes(addresses: Bytes, message: Bytes, nextHeader: nat)
    requires |addresses| == 32 && |message| % 2 == 0
    requires var whole := PseudoHeader(addresses, |message|, nextHeader) + message;
             |whole| % 2 == 0 && SumBE(whole) > 0 && SumBE(whole) % 0xFFFF == 0
    ensures Verifies(addresses, message, nextHeader)
  {
    hide SumBE, PseudoHeader, Fold;
    OnlyAllOnes(Fold(SumBE(PseudoHeader(addresses, |message|, nextHeader) + message)));
  }

  /** With the checksum in place the words add up to zero, up to carries. */
  lemma StampedSum(addresses: Bytes, message: Bytes, at: nat, nextHeader: nat)
    requires |addresses| == 32 && |message| % 2 == 0
    requires at % 2 == 0 && at + 2 <= |message| && message[at] == 0 && message[at + 1] == 0
    ensures var stamped := Stamped(message, at, ChecksumOf(addresses, message, nextHeader));
            && |stamped| == |message|
            && SumLE(PseudoHeader(addresses, |message|, nextHeader) + stamped) % 0xFFFF == 0
  {
    hide SumLE, Fold, PseudoHeader;
    var c := ChecksumOf(addresses, message, nextHeader);
    var pseudo := PseudoHeader(addresses, |message|, nextHeader);
    PseudoHeaderSize(addresses, |message|, nextHeader);
    SumLEOfConcat(pseudo, message);
    SumLEOfConcat(pseudo, Stamped(message, at, c));
    StampAdds(message, at, c);
    var sum := SumLE(pseudo + message);
    ComplementIsZero(sum, Fold(sum));
  }

  lemma PseudoHeaderSize(addresses: Bytes, length: nat, nextHeader: nat)
    ensures |PseudoHeader(addresses, length, nextHeader)| == |addresses| + 8
  {}

  lemma ComplementIsZero(sum: nat, folded: nat)
    requires folded % 0xFFFF == sum % 0xFFFF && folded <= 0xFFFF
    ensures (sum + 0xFFFF - folded) % 0xFFFF == 0
  {}

  lemma MultipleOfZero(x: nat)
    requires x % 0xFFFF == 0
    ensures 256 * x % 0xFFFF == 0
  {}

  lemma LengthNotZero(length: nat)
    requires 0 < length < 0x1_0000
    ensures Network32(length)[2] != 0 || Network32(length)[3] != 0
  {}

  lemma OnlyAllOnes(x: nat)
    requires 0 < x <= 0xFFFF && x % 0xFFFF == 0
    ensures x == 0xFFFF
  {}

  // ---------------------------------------------------------------- the code of the checksum

  lemma NextWord(b: Bytes, i: nat)
    requires i % 2 == 0 && i + 2 <= |b|
    ensures SumLE(b[..i + 2]) == SumLE(b[..i]) + Word(b[i], b[i + 1])
  {
    assert b[..i + 2][..i] == b[..i];
  }

  /** The fold loop. */
  method FoldLoop(sum: nat) returns (result: nat)
    ensures result == Fold(sum)
  {
    result := sum;
    while result / 0x1_0000 != 0
      invariant Fold(result) == Fold(sum)
      decreases result
    {
      result := result / 0x1_0000 + result % 0x1_0000;
    }
  }

  /** Adds the words of a view up to `length`; each octet is looked up with a bounds check. */
  method AddWords(view: Bytes, length: nat, sum: nat) returns (r: Result<nat>)
    ensures r == if length + length % 2 <= |view| then Success(sum + SumLE(view[..length + length % 2]))
                 else Failure(OutOfRange)
  {
    var result := sum;
    var i := 0;
    while i < length
      invariant i % 2 == 0 && i <= length + 1 && i <= |view|
      invariant result == sum + SumLE(view[..i])
      decreases length - i
    {
      if i + 1 >= |view| {
        return Failure(OutOfRange);
      }
      NextWord(view, i);
      result := result + Word(view[i], view[i + 1]);
      i := i + 2;
    }
    return Success(result);
  }

  /** A size as a 16-bit number; its parity stays. */
  function Narrowed(size: nat): (n: nat)
    ensures n <= size && n < 0x1_0000 && n % 2 == size % 2
    ensures size < 0x1_0000 ==> n == size
  {
    size % 0x1_0000
  }

  /**
   * The checked overload. The size is cut to 16 bits; a size that is then zero stops the program, and reading past
   * either view is an error. An odd length reads one octet beyond it and then adds its last octet again.
   */
  method Checksum(addresses: Bytes, content: Bytes, nextHeader: nat) returns (r: Result<nat>)
    requires nextHeader < 0x1_0000_0000
    ensures Narrowed(|content|) == 0 ==> r == Failure(AssertionFailed)
    ensures Narrowed(|content|) != 0 && (|addresses| < 32 || (|content| % 2 == 1 && |content| < 0x1_0000)) ==>
              r == Failure(OutOfRange)
    ensures Narrowed(|content|) != 0 && |addresses| >= 32 && |content| % 2 == 0 ==>
              r == Success(ChecksumOf(addresses[..32], content[..Narrowed(|content|)], nextHeader))
    ensures |addresses| >= 32 && |content| % 2 == 1 && |content| >= 0x1_0000 ==>
              r == Success(OddChecksumOf(addresses[..32], content[..Narrowed(|content|) + 1], nextHeader))
  {
    var length := Narrowed(|content|);
    if length == 0 {
      return Failure(AssertionFailed);
    }
    r := SumUp(addresses, content, length, nextHeader);
  }

  /** The sums of both views, for a length that is not zero. */
  method SumUp(addresses: Bytes, content: Bytes, length: nat, nextHeader: nat) returns (r: Result<nat>)
    requires 0 < length <= |content|
    ensures |addresses| < 32 || length + length % 2 > |content| ==> r == Failure(OutOfRange)
    ensures |addresses| >= 32 && length % 2 == 0 ==>
              r == Success(ChecksumOf(addresses[..32], content[..length], nextHeader))
    ensures |addresses| >= 32 && length % 2 == 1 && length < |content| ==>
              r == Success(OddChecksumOf(addresses[..32], content[..length + 1], nextHeader))
  {
    hide *;
    var sum := AddWords(addresses, 32, 0);
    if sum.Failure? {
      return Failure(sum.error);
    }
    sum := AddWords(content, length, sum.value);
    if sum.Failure? {
      return Failure(sum.error);
    }
    if length % 2 == 1 {
      var result := Finish(sum.value + Word(0, content[length - 1]), length, nextHeader);
      OddInOrder(addresses[..32], content[..length + 1], nextHeader);
      return Success(result);
    } else {
      var result := Finish(sum.value, length, nextHeader);
      WordsInOrder(addresses[..32], content[..length], nextHeader);
      return Success(result);
    }
  }

  /** Adds length and next header, folds and complements. */
  method Finish(sum: nat, length: nat, nextHeader: nat) returns (c: nat)
    ensures c == 0xFFFF - Fold(sum + Halves(Htonl(length)) + Halves(Htonl(nextHeader)))
  {
    hide Halves, Htonl;
    var result := sum;
    result := result + Halves(Htonl(length));
    result := result + Halves(Htonl(nextHeader));
    result := FoldLoop(result);
    c := 0xFFFF - result;
  }

  /** The same without bounds checks. */
  method AddWordsAt(packet: array<Byte>, start: nat, length: nat, sum: nat) returns (result: nat)
    requires start + length + length % 2 <= packet.Length
    ensures result == sum + SumLE(packet[start..start + length + length % 2])
  {
    ghost var view := packet[start..start + length + length % 2];
    result := sum;
    var i := 0;
    while i < length
      invariant i % 2 == 0 && i <= |view|
      invariant result == sum + SumLE(view[..i])
      decreases length - i
    {
      NextWord(view, i);
      assert view[i] == packet[start + i] && view[i + 1] == packet[start + i + 1];
      result := result + Word(packet[start + i], packet[start + i + 1]);
      i := i + 2;
    }
    assert view[..i] == view;
  }

  /** The overload on raw pointers, here places in one buffer, which an odd length reads one octet further. */
  method ChecksumAt(packet: array<Byte>, addresses: nat, content: nat, length: nat, nextHeader: nat) returns (c: nat)
    requires addresses + 32 <= packet.Length && content + length + length % 2 <= packet.Length
    requires 0 < length < 0x1_0000 && nextHeader < 0x1_0000_0000
    ensures length % 2 == 0 ==>
              c == ChecksumOf(packet[addresses..addresses + 32], packet[content..content + length], nextHeader)
    ensures length % 2 == 1 ==>
              c == OddChecksumOf(packet[addresses..addresses + 32], packet[content..content + length + 1], nextHeader)
  {
    hide *;
    var result := AddWordsAt(packet, addresses, 32, 0);
    result := AddWordsAt(packet, content, length, result);
    if length % 2 == 1 {
      result := result + Word(0, packet[content + length - 1]);
      OddInOrder(packet[addresses..addresses + 32], packet[content..content + length + 1], nextHeader);
    } else {
      WordsInOrder(packet[addresses..addresses + 32], packet[content..content + length], nextHeader);
    }
    c := Finish(result, length, nextHeader);
  }

  /** The code adds the words in another order than the packet has them. */
  lemma WordsInOrder(addresses: Bytes, message: Bytes, nextHeader: nat)
    requires |addresses| == 32 && |message| % 2 == 0
    ensures ChecksumOf(addresses, message, nextHeader)
         == 0xFFFF - Fold(SumLE(addresses) + SumLE(message)
                          + Halves(Htonl(|message|)) + Halves(Htonl(nextHeader)))
  {
    hide SumLE, Htonl, Halves, Network32, Fold;
    HtonlWords(|message|);
    HtonlWords(nextHeader);
    SumLEOfConcat(PseudoHeader(addresses, |message|, nextHeader), message);
    SumLEOfConcat(addresses + Network32(|message|), Network32(nextHeader));
    SumLEOfConcat(addresses, Network32(|message|));
  }

  // ---------------------------------------------------------------- odd lengths

  /** What the code computes for a message of odd length, given with the octet behind it, which is read as well. */
  function OddChecksumOf(addresses: Bytes, octets: Bytes, nextHeader: nat): (c: int)
    requires |addresses| == 32 && |octets| % 2 == 0 && octets != []
  {
    0xFFFF - Fold(SumLE(addresses) + SumLE(octets) + Word(0, octets[|octets| - 2])
                  + Halves(Htonl(|octets| - 1)) + Halves(Htonl(nextHeader)))
  }

  lemma OddInOrder(addresses: Bytes, octets: Bytes, nextHeader: nat)
    requires |addresses| == 32 && |octets| % 2 == 0 && octets != []
    ensures OddChecksumOf(addresses, octets, nextHeader)
         == 0xFFFF - Fold(SumLE(addresses) + SumLE(octets) + Word(0, octets[|octets| - 2])
                          + Halves(Htonl(|octets| - 1)) + Halves(Htonl(nextHeader)))
  {}

  /** The checksum that RFC 1071 asks for: the message padded with one zero octet. */
  function PaddedChecksumOf(addresses: Bytes, message: Bytes, nextHeader: nat): (c: int)
    requires |addresses| == 32 && |message| % 2 == 1
  {
    0xFFFF - Fold(SumLE(PseudoHeader(addresses, |message|, nextHeader) + (message + [0])))
  }

  /** For an odd length the code is right if and only if the last octet and the octet behind the message are zero. */
  lemma OddIsRightIff(addresses: Bytes, message: Bytes, beyond: Byte, nextHeader: nat)
    requires |addresses| == 32 && |message| % 2 == 1
    ensures OddChecksumOf(addresses, message + [beyond], nextHeader) == PaddedChecksumOf(addresses, message, nextHeader)
            <==> message[|message| - 1] == 0 && beyond == 0
  {
    OddIsPaddedPlus(addresses, message, beyond, nextHeader);
    hide OddChecksumOf, Fold, SumLE, PseudoHeader;
    SameFoldIff(SumLE(PseudoHeader(addresses, |message|, nextHeader) + (message + [0])),
                (message[|message| - 1] as int) + (beyond as int));
  }

  /** What the code adds too much: the octet behind, and the last octet a second time. */
  lemma OddIsPaddedPlus(addresses: Bytes, message: Bytes, beyond: Byte, nextHeader: nat)
    requires |addresses| == 32 && |message| % 2 == 1
    ensures |PseudoHeader(addresses, |message|, nextHeader) + (message + [0])| % 2 == 0
    ensures OddChecksumOf(addresses, message + [beyond], nextHeader)
         == 0xFFFF - Fold(SumLE(PseudoHeader(addresses, |message|, nextHeader) + (message + [0]))
                          + 256 * ((message[|message| - 1] as int) + (beyond as int)))
  {
    hide Fold, Htonl, Halves, Network32, SumLE;
    HtonlWords(|message|);
    HtonlWords(nextHeader);
    SumLEOfConcat(PseudoHeader(addresses, |message|, nextHeader), message + [0]);
    SumLEOfConcat(addresses + Network32(|message|), Network32(nextHeader));
    SumLEOfConcat(addresses, Network32(|message|));
    LastWord(message, beyond);
    LastWord(message, 0);
  }

  lemma LastWord(message: Bytes, beyond: Byte)
    requires |message| % 2 == 1
    ensures SumLE(message + [beyond]) == SumLE(message[..|message| - 1]) + Word(message[|message| - 1], beyond)
  {
    assert (message + [beyond])[..|message| - 1] == message[..|message| - 1];
  }

  lemma SameFoldIff(sum: nat, more: nat)
    requires more <= 510
    ensures Fold(sum + 256 * more) == Fold(sum) <==> more == 0
  {
    if Fold(sum + 256 * more) == Fold(sum) {
      assert (sum + 256 * more) % 0xFFFF == sum % 0xFFFF;
      MultipleBetween(sum, 256 * more);
    }
  }

  lemma MultipleBetween(x: nat, d: nat)
    requires (x + d) % 0xFFFF == x % 0xFFFF
    ensures d % 0xFFFF == 0
  {}

  // ---------------------------------------------------------------- the message

  const HEADERS: Bytes := [0xFC, 0, 0, 0, 0, 0, 0x86, 0xDD, 0x60, 0, 0, 0, 0, 0x28, 0x3A, 0xFF]
  const OPTIONS: Bytes := [0x02, 0x01, 0xFC, 0, 0, 0, 0, 0, 0x01, 0x01]
  const ICMPV6: nat := 58

  /** The advertisement from its type to its end: flags R, S and O, the target, and both link-layer options. */
  function Message(mac: Bytes, target: Bytes, checksum: Bytes): Bytes {
    [0x88, 0x00] + checksum + [0xE0, 0, 0, 0] + target + OPTIONS + mac
  }

  /** An Ethernet frame with a Neighbor Advertisement (section 4.4 of RFC 4861), its checksum on two octets. */
  function Layout(mac: Bytes, target: Bytes, destination: Bytes, checksum: Bytes): Bytes {
    mac + HEADERS + target + destination + Message(mac, target, checksum)
  }

  function Advertisement(mac: Bytes, target: Bytes, destination: Bytes): (p: Bytes)
    requires |mac| == 6 && |target| == 16 && |destination| == 16
    ensures |p| == 94
  {
    var blank := Layout(mac, target, destination, [0, 0]);
    var c := ChecksumOf(blank[22..54], blank[54..94], ICMPV6);
    Layout(mac, target, destination, [c % 256, c / 256])
  }

  lemma LayoutFields(mac: Bytes, target: Bytes, destination: Bytes, checksum: Bytes)
    requires |mac| == 6 && |target| == 16 && |destination| == 16 && |checksum| == 2
    ensures var p := Layout(mac, target, destination, checksum);
            && |p| == 94
            && p[..6] == mac && p[22..38] == target && p[38..54] == destination
            && p[22..54] == target + destination && p[54..94] == Message(mac, target, checksum)
            && p[62..78] == target && p[88..94] == mac
  {
    MessageFields(mac, target, checksum);
    hide Message;
    var p := Layout(mac, target, destination, checksum);
    assert p[54..94] == Message(mac, target, checksum);
    assert p[62..78] == p[54..94][8..24] && p[88..94] == p[54..94][34..40];
  }

  lemma MessageFields(mac: Bytes, target: Bytes, checksum: Bytes)
    requires |mac| == 6 && |target| == 16 && |checksum| == 2
    ensures var m := Message(mac, target, checksum);
            |m| == 40 && m[2..4] == checksum && m[8..24] == target && m[34..40] == mac
  {}

  lemma MessageStamped(mac: Bytes, target: Bytes, c: nat)
    requires |mac| == 6 && |target| == 16 && c < 0x1_0000
    ensures var blank := Message(mac, target, [0, 0]);
            && |blank| == 40 && blank[2] == 0 && blank[3] == 0
            && Message(mac, target, [c % 256, c / 256]) == Stamped(blank, 2, c)
  {}

  /** Whatever the solicitation, the advertisement carries a checksum that verifies, and the fields it should. */
  lemma AdvertisementVerifies(mac: Bytes, target: Bytes, destination: Bytes)
    requires |mac| == 6 && |target| == 16 && |destination| == 16
    ensures var p := Advertisement(mac, target, destination);
            && Verifies(p[22..54], p[54..94], ICMPV6)
            && p[..6] == mac && p[22..38] == target && p[38..54] == destination && p[62..78] == target && p[88..94] == mac
  {
    hide ChecksumOf, Verifies;
    var blank := Layout(mac, target, destination, [0, 0]);
    var c := ChecksumOf(blank[22..54], blank[54..94], ICMPV6);
    LayoutFields(mac, target, destination, [0, 0]);
    LayoutFields(mac, target, destination, [c % 256, c / 256]);
    MessageStamped(mac, target, c);
    hide Layout, Message, Stamped;
    ChecksumVerifies(blank[22..54], blank[54..94], 2, ICMPV6);
  }

  /**
   * Octet by octet: an IPv6 frame (section 3 of RFC 2460) with payload length 40, next header 58 and hop limit 255, and
   * in it a Neighbor Advertisement (section 4.4 of RFC 4861) of type 136 and code 0 with flags R, S and O, and two
   * link-layer options of eight octets each: the target's address and the source's.
   */
  lemma AdvertisementOctets(mac: Bytes, target: Bytes, destination: Bytes)
    requires |mac| == 6 && |target| == 16 && |destination| == 16
    ensures var p := Advertisement(mac, target, destination);
            && p[6..12] == [0xFC, 0, 0, 0, 0, 0] && p[12] == 0x86 && p[13] == 0xDD
            && p[14] == 0x60 && p[15] == p[16] == p[17] == 0
            && p[18] == 0 && p[19] == 40 && p[20] == 58 && p[21] == 255
            && p[54] == 136 && p[55] == 0 && p[58] == 0x80 + 0x40 + 0x20 && p[59] == p[60] == p[61] == 0
            && p[78] == 2 && p[79] == 1 && p[80..86] == [0xFC, 0, 0, 0, 0, 0] && p[86] == 1 && p[87] == 1
  {
    var blank := Layout(mac, target, destination, [0, 0]);
    var c := ChecksumOf(blank[22..54], blank[54..94], ICMPV6);
    LayoutOctets(mac, target, destination, [c % 256, c / 256]);
    hide Layout, ChecksumOf;
    TemplateOctets(Advertisement(mac, target, destination));
  }

  lemma TemplateOctets(p: Bytes)
    requires IsTemplate(p)
    ensures p[6..12] == [0xFC, 0, 0, 0, 0, 0] && p[12] == 0x86 && p[13] == 0xDD
    ensures p[14] == 0x60 && p[15] == p[16] == p[17] == 0
    ensures p[18] == 0 && p[19] == 40 && p[20] == 58 && p[21] == 255
    ensures p[54] == 136 && p[55] == 0 && p[58] == 0x80 + 0x40 + 0x20 && p[59] == p[60] == p[61] == 0
    ensures p[78] == 2 && p[79] == 1 && p[80..86] == [0xFC, 0, 0, 0, 0, 0] && p[86] == 1 && p[87] == 1
  {
    assert forall i :: 6 <= i < 22 ==> p[i] == HEADERS[i - 6];
    assert forall i :: 78 <= i < 88 ==> p[i] == OPTIONS[i - 78];
  }

  /** Different MAC addresses make different frames. */
  lemma MacDecides(mac: Bytes, mac': Bytes, target: Bytes, destination: Bytes)
    requires |mac| == 6 && |mac'| == 6 && |target| == 16 && |destination| == 16
    ensures Advertisement(mac, target, destination) == Advertisement(mac', target, destination) <==> mac == mac'
  {
    AdvertisementVerifies(mac, target, destination);
    AdvertisementVerifies(mac', target, destination);
  }

  // ---------------------------------------------------------------- the loop builder

  /** Writes the octets at the iterator and moves it. */
  method Put(packet: array<Byte>, it: nat, octets: Bytes) returns (end: nat)
    requires it + |octets| <= packet.Length
    modifies packet
    ensures end == it + |octets|
    ensures packet[..end] == old(packet[..it]) + octets
  {
    var i := 0;
    while i < |octets|
      invariant i <= |octets|
      invariant packet[..it + i] == old(packet[..it]) + octets[..i]
    {
      packet[it + i] := octets[i];
      i := i + 1;
    }
    end := it + i;
  }

  method PutHeaders(packet: array<Byte>, solicitation: Bytes) returns (end: nat)
    requires packet.Length == 94 && |solicitation| == 9000
    modifies packet
    ensures end == 54
    ensures packet[..54] == solicitation[6..12] + HEADERS + solicitation[62..78] + solicitation[22..38]
  {
    var it := Put(packet, 0, solicitation[6..12]);
    it := PutFixedHeaders(packet, it);
    it := Put(packet, it, solicitation[62..78]);
    end := Put(packet, it, solicitation[22..38]);
  }

  /** Source MAC, EtherType, flow label, payload length, next header, hop limit. */
  method PutFixedHeaders(packet: array<Byte>, it: nat) returns (end: nat)
    requires it + 16 <= packet.Length
    modifies packet
    ensures end == it + 16 && packet[..end] == old(packet[..it]) + HEADERS
  {
    ghost var before := packet[..it];
    end := Put(packet, it, [0xFC, 0, 0, 0, 0, 0]);
    end := Put(packet, end, [0x86, 0xDD]);
    end := Put(packet, end, [0x60, 0, 0, 0]);
    assert packet[..end] == before + [0xFC, 0, 0, 0, 0, 0, 0x86, 0xDD, 0x60, 0, 0, 0];
    end := Put(packet, end, [0, 0x28]);
    end := Put(packet, end, [0x3A]);
    end := Put(packet, end, [0xFF]);
  }

  method PutMessage(packet: array<Byte>, it: nat, solicitation: Bytes) returns (checksumAt: nat)
    requires packet.Length == 94 && |solicitation| == 9000 && it == 54
    modifies packet
    ensures checksumAt == 56
    ensures packet[..] == old(packet[..54]) + Message(solicitation[6..12], solicitation[62..78], [0, 0])
  {
    var end := Put(packet, it, [136]);
    end := Put(packet, end, [0]);
    checksumAt := end;
    end := Put(packet, end, [0, 0]);
    end := Put(packet, end, [0xE0, 0, 0, 0]);
    assert packet[..62] == old(packet[..54]) + ([0x88, 0x00] + [0, 0] + [0xE0, 0, 0, 0]);
    end := Put(packet, end, solicitation[62..78]);
    end := Put(packet, end, [0x02, 0x01, 0xFC, 0, 0, 0, 0, 0]);
    end := Put(packet, end, [0x01, 0x01]);
    assert packet[..88]
        == old(packet[..54]) + ([0x88, 0x00] + [0, 0] + [0xE0, 0, 0, 0] + solicitation[62..78] + OPTIONS);
    ghost var before := packet[..88];
    end := Put(packet, end, solicitation[6..12]);
    assert packet[..] == packet[..94] == before + solicitation[6..12];
  }

  method GenerateNeighborAdvertisement(solicitation: Bytes) returns (r: Bytes)
    requires |solicitation| == 9000
    ensures r == Advertisement(solicitation[6..12], solicitation[62..78], solicitation[22..38])
  {
    hide ChecksumOf, Message, Advertisement;
    ghost var mac, target, destination := solicitation[6..12], solicitation[62..78], solicitation[22..38];
    var packet := new Byte[94](i => 0);
    var it := PutHeaders(packet, solicitation);
    var checksumAt := PutMessage(packet, it, solicitation);
    ghost var blank := Layout(mac, target, destination, [0, 0]);
    assert packet[..] == blank;
    var checksum := ChecksumAt(packet, 22, 54, 40, ICMPV6);
    assert packet[22..54] == blank[22..54] && packet[54..94] == blank[54..94];
    packet[checksumAt] := checksum % 256;
    packet[checksumAt + 1] := checksum / 256;
    r := packet[..];
    Restamped(blank, r, mac, target, destination, checksum);
  }

  lemma Restamped(blank: Bytes, p: Bytes, mac: Bytes, target: Bytes, destination: Bytes, c: nat)
    requires |mac| == 6 && |target| == 16 && |destination| == 16
    requires blank == Layout(mac, target, destination, [0, 0])
    requires c == ChecksumOf(blank[22..54], blank[54..94], ICMPV6)
    requires p == blank[..56] + [c % 256, c / 256] + blank[58..]
    ensures p == Advertisement(mac, target, destination)
  {
    hide ChecksumOf;
  }

  // ---------------------------------------------------------------- the template builder

  /** The octets of the template that no call changes. */
  ghost predicate IsTemplate(p: Bytes) {
    && |p| == 94
    && (forall k :: 6 <= k < 22 ==> p[k] == HEADERS[k - 6])
    && p[54] == 0x88 && p[55] == 0x00 && p[58] == 0xE0 && p[59] == 0 && p[60] == 0 && p[61] == 0
    && (forall k :: 78 <= k < 88 ==> p[k] == OPTIONS[k - 78])
  }

  /** `p` with these octets from `to` on. */
  function Overlaid(p: Bytes, to: nat, octets: Bytes): (r: Bytes)
    requires to + |octets| <= |p|
    ensures |r| == |p|
  {
    p[..to] + octets + p[to + |octets|..]
  }

  lemma OverlaidSlice(p: Bytes, to: nat, octets: Bytes, i: nat, j: nat)
    requires to + |octets| <= |p| && i <= j <= |p|
    ensures j <= to || to + |octets| <= i ==> Overlaid(p, to, octets)[i..j] == p[i..j]
    ensures i == to && j == to + |octets| ==> Overlaid(p, to, octets)[i..j] == octets
  {
    var r := Overlaid(p, to, octets);
    if j <= to {
      assert r[..to] == p[..to];
      assert r[i..j] == r[..to][i..j] == p[..to][i..j] == p[i..j];
    } else if to + |octets| <= i {
      var end := to + |octets|;
      assert r[end..] == p[end..];
      assert r[i..j] == r[end..][i - end..j - end] == p[end..][i - end..j - end] == p[i..j];
    }
  }

  /** A field laid over its place leaves the fixed octets alone. */
  lemma FieldKeepsTemplate(p: Bytes, to: nat, octets: Bytes)
    requires IsTemplate(p)
    requires ((to == 0 || to == 88) && |octets| == 6) || ((to == 22 || to == 38 || to == 62) && |octets| == 16)
    ensures IsTemplate(Overlaid(p, to, octets))
  {}

  /** The five fields laid over the template. */
  lemma FieldsOverlaid(p: Bytes, mac: Bytes, target: Bytes, destination: Bytes) returns (r: Bytes)
    requires IsTemplate(p) && |mac| == 6 && |target| == 16 && |destination| == 16
    ensures r == Overlaid(Overlaid(Overlaid(Overlaid(Overlaid(p, 0, mac), 22, target), 38, destination), 62, target), 88, mac)
    ensures HasFields(r, mac, target, destination)
  {
    hide IsTemplate, Overlaid;
    FieldKeepsTemplate(p, 0, mac);
    var p1 := Overlaid(p, 0, mac);
    TemplateSize(p1);
    FieldKeepsTemplate(p1, 22, target);
    var p2 := Overlaid(p1, 22, target);
    FieldKeepsTemplate(p2, 38, destination);
    var p3 := Overlaid(p2, 38, destination);
    FieldKeepsTemplate(p3, 62, target);
    var p4 := Overlaid(p3, 62, target);
    FieldKeepsTemplate(p4, 88, mac);
    r := Overlaid(p4, 88, mac);
    OverlaidSlice(p, 0, mac, 0, 6);
    OverlaidSlice(p1, 22, target, 0, 6);
    OverlaidSlice(p1, 22, target, 22, 38);
    OverlaidSlice(p2, 38, destination, 0, 6);
    OverlaidSlice(p2, 38, destination, 22, 38);
    OverlaidSlice(p2, 38, destination, 38, 54);
    OverlaidSlice(p3, 62, target, 0, 6);
    OverlaidSlice(p3, 62, target, 22, 38);
    OverlaidSlice(p3, 62, target, 38, 54);
    OverlaidSlice(p3, 62, target, 62, 78);
    OverlaidSlice(p4, 88, mac, 0, 6);
    OverlaidSlice(p4, 88, mac, 22, 38);
    OverlaidSlice(p4, 88, mac, 38, 54);
    OverlaidSlice(p4, 88, mac, 62, 78);
    OverlaidSlice(p4, 88, mac, 88, 94);
    assert r[0..6] == r[..6];
  }

  lemma TemplateSize(p: Bytes)
    requires IsTemplate(p)
    ensures |p| == 94
  {}

  /** The template with these fields. */
  ghost predicate HasFields(p: Bytes, mac: Bytes, target: Bytes, destination: Bytes) {
    && IsTemplate(p)
    && p[..6] == mac && p[22..38] == target && p[38..54] == destination && p[62..78] == target && p[88..94] == mac
  }

  lemma TemplateOf(p: Bytes, mac: Bytes, target: Bytes, destination: Bytes)
    requires HasFields(p, mac, target, destination)
    ensures IsTemplate(p)
  {}

  class Advertiser {
    const packet: array<Byte>

    ghost predicate Valid()
      reads this, packet
    {
      IsTemplate(packet[..])
    }

    constructor ()
      ensures Valid() && fresh(packet)
    {
      var zero: Bytes := [0, 0, 0, 0, 0, 0, 0, 0, 0, 0, 0, 0, 0, 0, 0, 0];
      var template := Layout(zero[..6], zero, zero, [0, 0]);
      LayoutOctets(zero[..6], zero, zero, [0, 0]);
      hide Layout;
      packet := new Byte[94](i requires 0 <= i < 94 => template[i]);
      new;
      assert packet[..] == template;
    }

    /** Copies `n` octets into the template. A source that ends too early is refused before anything is copied. */
    method CopySafeApart(n: nat, source: Bytes, from: nat, to: nat) returns (failed: Option<Error>)
      requires 1 <= n && to + n <= packet.Length
      modifies packet
      ensures failed == if from + n <= |source| then None else Some(InvalidInput)
      ensures packet[..] == if failed == None then Overlaid(old(packet[..]), to, source[from..from + n]) else old(packet[..])
    {
      if !(from < |source|) || !(n <= |source| - from) {
        return Some(InvalidInput);
      }
      var i := 0;
      while i < n
        invariant i <= n
        invariant forall k :: 0 <= k < packet.Length ==>
                    packet[k] == if to <= k < to + i then source[from + k - to] else old(packet[k])
      {
        packet[to + i] := source[from + i];
        i := i + 1;
      }
      return None;
    }

    /** The five copies; a failed one may leave an earlier one done. */
    method CopyFields(mac: Bytes, solicitation: Bytes) returns (failed: Option<Error>)
      requires Valid()
      modifies packet
      ensures Valid()
      ensures failed == if |mac| < 6 || |solicitation| < 78 then Some(InvalidInput) else None
      ensures failed == None ==> HasFields(packet[..], mac[0..6], solicitation[62..78], solicitation[22..38])
    {
      ghost var before := packet[..];
      assert |before| == packet.Length == 94;
      hide Overlaid, IsTemplate, HasFields;
      failed := CopySafeApart(6, mac, 0, 0);
      if failed.Some? { return; }
      FieldKeepsTemplate(before, 0, mac[0..6]);
      failed := CopyFromSolicitation(mac, solicitation);
      if failed == None {
        ghost var after := FieldsOverlaid(before, mac[0..6], solicitation[62..78], solicitation[22..38]);
        TemplateOf(after, mac[0..6], solicitation[62..78], solicitation[22..38]);
      }
    }

    /** The other four copies, of which only the first can fail. */
    method CopyFromSolicitation(mac: Bytes, solicitation: Bytes) returns (failed: Option<Error>)
      requires packet.Length == 94 && |mac| >= 6
      modifies packet
      ensures failed == if |solicitation| < 78 then Some(InvalidInput) else None
      ensures failed.Some? ==> packet[..] == old(packet[..])
      ensures failed == None ==>
                packet[..] == Overlaid(Overlaid(Overlaid(Overlaid(old(packet[..]), 22, solicitation[62..78]),
                                                         38, solicitation[22..38]), 62, solicitation[62..78]), 88, mac[0..6])
    {
      hide Overlaid;
      failed := CopySafeApart(16, solicitation, 62, 22);
      if failed.Some? { return; }
      failed := CopySafeApart(16, solicitation, 22, 38);
      failed := CopySafeApart(16, solicitation, 62, 62);
      failed := CopySafeApart(6, mac, 0, 88);
    }

    /** The answer does not depend on the calls before, not even on a failed one that has changed part of the template. */
    method GenerateNew(mac: Bytes, solicitation: Bytes) returns (r: Result<Bytes>)
      requires Valid()
      modifies packet
      ensures Valid()
      ensures r == if |mac| < 6 || |solicitation| < 78 then Failure(InvalidInput)
                   else Success(Advertisement(mac[..6], solicitation[62..78], solicitation[22..38]))
    {
      hide ChecksumOf, Advertisement, Layout;
      var failed := CopyFields(mac, solicitation);
      if failed.Some? { return Failure(failed.value); }
      ghost var copied := packet[..];
      packet[56] := 0x00;
      packet[57] := 0x00;
      ghost var m, target, destination := mac[..6], solicitation[62..78], solicitation[22..38];
      ghost var blank := packet[..];
      OnlyChecksumChanged(copied, blank, m, target, destination);
      var sum := Checksum(packet[22..54], packet[54..94], ICMPV6);
      assert packet[22..54][..32] == blank[22..54] && packet[54..94][..40] == blank[54..94];
      packet[56] := sum.value % 256;
      packet[57] := sum.value / 256;
      OnlyChecksumChanged(copied, packet[..], m, target, destination);
      r := Success(packet[..]);
      AdvertisementIs(m, target, destination, sum.value);
    }
  }

  lemma OnlyChecksumChanged(before: Bytes, after: Bytes, mac: Bytes, target: Bytes, destination: Bytes)
    requires HasFields(before, mac, target, destination) && |after| == 94
    requires after[..56] == before[..56] && after[58..] == before[58..]
    ensures IsTemplate(after) && after == Layout(mac, target, destination, [after[56], after[57]])
  {
    assert forall k :: 0 <= k < 56 ==> after[k] == after[..56][k] == before[k];
    assert forall k :: 58 <= k < 94 ==> after[k] == after[58..][k - 58] == before[k];
    assert after[56..58] == [after[56], after[57]];
    Assembled(after, mac, target, destination);
  }

  lemma LayoutOctets(mac: Bytes, target: Bytes, destination: Bytes, checksum: Bytes)
    requires |mac| == 6 && |target| == 16 && |destination| == 16 && |checksum| == 2
    ensures IsTemplate(Layout(mac, target, destination, checksum))
  {}

  lemma AdvertisementIs(mac: Bytes, target: Bytes, destination: Bytes, c: nat)
    requires |mac| == 6 && |target| == 16 && |destination| == 16
    requires var blank := Layout(mac, target, destination, [0, 0]); c == ChecksumOf(blank[22..54], blank[54..94], ICMPV6)
    ensures Advertisement(mac, target, destination) == Layout(mac, target, destination, [c % 256, c / 256])
  {}

  lemma Assembled(p: Bytes, mac: Bytes, target: Bytes, destination: Bytes)
    requires IsTemplate(p)
    requires p[..6] == mac && p[22..38] == target && p[38..54] == destination && p[62..78] == target && p[88..94] == mac
    ensures p == Layout(mac, target, destination, p[56..58])
  {
    assert p[6..22] == HEADERS && p[54..56] == [0x88, 0x00] && p[58..62] == [0xE0, 0, 0, 0] && p[78..88] == OPTIONS;
    assert p[54..94] == p[54..56] + p[56..58] + p[58..62] + p[62..78] + p[78..88] + p[88..94];
    assert p == p[..6] + p[6..22] + p[22..38] + p[38..54] + p[54..94];
  }

  /** Both builders on one solicitation: they agree exactly when the MAC given is the one in the frame. */
  method BothBuilders(a: Advertiser, mac: Bytes, solicitation: Bytes) returns (patched: Result<Bytes>, built: Bytes)
    requires a.Valid() && |solicitation| == 9000
    modifies a.packet
    ensures a.Valid()
    ensures patched == Success(built) <==> |mac| >= 6 && mac[..6] == solicitation[6..12]
  {
    patched := a.GenerateNew(mac, solicitation);
    built := GenerateNeighborAdvertisement(solicitation);
    if |mac| >= 6 {
      MacDecides(mac[..6], solicitation[6..12], solicitation[62..78], solicitation[22..38]);
    }
  }
}
