/** The variable-length integers of a serialized trie: values and jump deltas. */
module TrieCodec {
  import opened Basics
  import opened Trie

  const kMaxBranchLinearSubNodeLength := 5
  const kMinLinearMatch := 0x10
  const kMaxLinearMatchLength := 0x10
  const kMinValueLead := kMinLinearMatch + kMaxLinearMatchLength
  const kMinOneByteValueLead := kMinValueLead / 2
  const kMaxOneByteValue := 0x40
  const kMinTwoByteValueLead := kMinOneByteValueLead + kMaxOneByteValue + 1
  const kMaxTwoByteValue := 0x1aff
  const kMinThreeByteValueLead := kMinTwoByteValueLead + kMaxTwoByteValue / 0x100 + 1
  const kFourByteValueLead := 0x7e
  const kMaxThreeByteValue := (kFourByteValueLead - kMinThreeByteValueLead) * 0x1_0000 - 1
  const kFiveByteValueLead := 0x7f
  const kMaxOneByteDelta := 0xbf
  const kMinTwoByteDeltaLead := kMaxOneByteDelta + 1
  const kMinThreeByteDeltaLead := 0xf0
  const kFourByteDeltaLead := 0xfe
  const kFiveByteDeltaLead := 0xff
  const kMaxTwoByteDelta := (kMinThreeByteDeltaLead - kMinTwoByteDeltaLead) * 0x100 - 1
  const kMaxThreeByteDelta := (kFourByteDeltaLead - kMinThreeByteDeltaLead) * 0x1_0000 - 1

  predicate IsInt32(i: int) {
    -0x8000_0000 <= i < 0x8000_0000
  }

  /** The 32-bit word u read as a signed number. */
  function Signed(u: int): int {
    if u < 0x8000_0000 then u else u - 0x1_0000_0000
  }

  /** The number of bytes after a value lead byte, which is already shifted right by 1. */
  function ValueTail(lead: int): nat {
    if lead < kMinTwoByteValueLead then 0
    else if lead < kMinThreeByteValueLead then 1
    else if lead < kFourByteValueLead then 2
    else 3 + lead % 2
  }

  /** The bytes pos..pos+n-1 as a big-endian number. */
  function BigEndian(b: seq<Byte>, pos: nat, n: nat): int
    requires pos + n <= |b|
  {
    if n == 0 then 0 else BigEndian(b, pos, n - 1) * 0x100 + b[pos + n - 1]
  }

  /** The value after a lead byte, which is already shifted right by 1. */
  function ReadValue(b: seq<Byte>, pos: nat, lead: int): int
    requires kMinOneByteValueLead <= lead < 0x80
    requires pos + ValueTail(lead) <= |b|
  {
    if lead < kMinTwoByteValueLead then lead - kMinOneByteValueLead
    else if lead < kMinThreeByteValueLead then (lead - kMinTwoByteValueLead) * 0x100 + BigEndian(b, pos, 1)
    else if lead < kFourByteValueLead then (lead - kMinThreeByteValueLead) * 0x1_0000 + BigEndian(b, pos, 2)
    else if lead == kFourByteValueLead then BigEndian(b, pos, 3)
    else Signed(BigEndian(b, pos, 4))
  }

  /** Is there a whole value at pos? */
  predicate ValueFits(b: seq<Byte>, pos: nat) {
    pos < |b| && b[pos] >= kMinValueLead && pos + 1 + ValueTail(b[pos] / 2) <= |b|
  }

  function ValueAt(b: seq<Byte>, pos: nat): int
    requires ValueFits(b, pos)
  {
    ReadValue(b, pos + 1, b[pos] / 2)
  }

  predicate IsFinalAt(b: seq<Byte>, pos: nat)
    requires ValueFits(b, pos)
  {
    b[pos] % 2 == 1
  }

  /** The position after the value at pos. */
  function SkipValue(b: seq<Byte>, pos: nat): nat
    requires ValueFits(b, pos)
  {
    pos + 1 + ValueTail(b[pos] / 2)
  }

  function DeltaTail(lead: Byte): nat {
    if lead < kMinTwoByteDeltaLead then 0
    else if lead < kMinThreeByteDeltaLead then 1
    else if lead < kFourByteDeltaLead then 2
    else 3 + lead % 2
  }

  predicate DeltaFits(b: seq<Byte>, pos: nat) {
    pos < |b| && pos + 1 + DeltaTail(b[pos]) <= |b|
  }

  function DeltaAt(b: seq<Byte>, pos: nat): int
    requires DeltaFits(b, pos)
  {
    var lead := b[pos];
    if lead < kMinTwoByteDeltaLead then lead
    else if lead < kMinThreeByteDeltaLead then (lead - kMinTwoByteDeltaLead) * 0x100 + BigEndian(b, pos + 1, 1)
    else if lead < kFourByteDeltaLead then (lead - kMinThreeByteDeltaLead) * 0x1_0000 + BigEndian(b, pos + 1, 2)
    else if lead == kFourByteDeltaLead then BigEndian(b, pos + 1, 3)
    else Signed(BigEndian(b, pos + 1, 4))
  }

  function SkipDelta(b: seq<Byte>, pos: nat): nat
    requires DeltaFits(b, pos)
  {
    pos + 1 + DeltaTail(b[pos])
  }

  function JumpByDelta(b: seq<Byte>, pos: nat): int
    requires DeltaFits(b, pos)
  {
    SkipDelta(b, pos) + DeltaAt(b, pos)
  }

  /** The lead byte of a value before its final bit is shifted in. */
  function ValueLead(i: int): (lead: int)
    ensures kMinOneByteValueLead <= lead < 0x80
  {
    if 0 <= i <= kMaxOneByteValue then kMinOneByteValueLead + i
    else if i < 0 || i > 0xff_ffff then kFiveByteValueLead
    else if i <= kMaxTwoByteValue then kMinTwoByteValueLead + i / 0x100
    else if i <= kMaxThreeByteValue then kMinThreeByteValueLead + i / 0x1_0000
    else kFourByteValueLead
  }

  function ValueRest(i: int): (bytes: seq<Byte>)
    ensures |bytes| == ValueTail(ValueLead(i))
  {
    var u := Unsigned(i);
    if 0 <= i <= kMaxOneByteValue then []
    else if i < 0 || i > 0xff_ffff then
      [u / 0x100_0000 % 0x100, u / 0x1_0000 % 0x100, u / 0x100 % 0x100, u % 0x100]
    else if i <= kMaxTwoByteValue then [u % 0x100]
    else if i <= kMaxThreeByteValue then [u / 0x100 % 0x100, u % 0x100]
    else [u / 0x1_0000 % 0x100, u / 0x100 % 0x100, u % 0x100]
  }

  /** The bytes which the builder writes for a value. */
  function ValueBytes(i: int, isFinal: bool): (bytes: seq<Byte>)
    ensures |bytes| <= 5
  {
    [ValueLead(i) * 2 + if isFinal then 1 else 0] + ValueRest(i)
  }

  /**
   The bytes which the builder writes for a jump delta. Deltas above kMaxThreeByteDelta
   store their second byte over their first and leave the buffer's third entry (and, for
   five bytes, the fourth) as it was: `junk`.
   */
  function DeltaBytes(i: nat, junk: seq<Byte>): seq<Byte>
    requires |junk| == 2
  {
    if i <= kMaxOneByteDelta then
      [i]
    else if i <= kMaxTwoByteDelta then
      [kMinTwoByteDeltaLead + i / 0x100, i % 0x100]
    else if i <= kMaxThreeByteDelta then
      [kMinThreeByteDeltaLead + i / 0x1_0000, i / 0x100 % 0x100, i % 0x100]
    else if i <= 0xff_ffff then
      [kFourByteDeltaLead, i / 0x100 % 0x100, junk[0], i % 0x100]
    else
      [kFiveByteDeltaLead, i / 0x100 % 0x100, junk[0], junk[1], i % 0x100]
  }

  lemma Digits(u: int)
    requires 0 <= u
    ensures u == u / 0x100 * 0x100 + u % 0x100
    ensures u / 0x100 == u / 0x1_0000 * 0x100 + u / 0x100 % 0x100
    ensures u / 0x1_0000 == u / 0x100_0000 * 0x100 + u / 0x1_0000 % 0x100
    ensures u < 0x1_0000_0000 ==> u / 0x100_0000 % 0x100 == u / 0x100_0000
    ensures u < 0x100_0000 ==> u / 0x1_0000 % 0x100 == u / 0x1_0000
  {
  }

  /** One to four bytes of a number, most significant first, put together. */
  lemma DigitsTogether(u: int, b3: int, b2: int, b1: int, b0: int)
    requires 0 <= u && b3 == u / 0x100_0000 && b2 == u / 0x1_0000 % 0x100 && b1 == u / 0x100 % 0x100 && b0 == u % 0x100
    ensures u == b3 * 0x100_0000 + b2 * 0x1_0000 + b1 * 0x100 + b0
    ensures u / 0x1_0000 == b3 * 0x100 + b2
    ensures u / 0x100 == b3 * 0x1_0000 + b2 * 0x100 + b1
  {
    Digits(u);
  }

  lemma BigEndianUpTo4(b: seq<Byte>, pos: nat, n: nat)
    requires pos + n <= |b|
    ensures n == 1 ==> BigEndian(b, pos, n) == b[pos]
    ensures n == 2 ==> BigEndian(b, pos, n) == (b[pos] as int) * 0x100 + b[pos + 1]
    ensures n == 3 ==> BigEndian(b, pos, n) == (b[pos] as int) * 0x1_0000 + (b[pos + 1] as int) * 0x100 + b[pos + 2]
    ensures n == 4 ==>
      (BigEndian(b, pos, n) ==
       (b[pos] as int) * 0x100_0000 + (b[pos + 1] as int) * 0x1_0000 + (b[pos + 2] as int) * 0x100 + b[pos + 3])
  {
    if 1 < n <= 4 {
      BigEndianUpTo4(b, pos, n - 1);
    }
  }

  /** The lead byte of a value, with the final bit. */
  lemma LeadByte(lead: int, isFinal: bool)
    ensures (lead * 2 + if isFinal then 1 else 0) / 2 == lead
    ensures (lead * 2 + if isFinal then 1 else 0) % 2 == if isFinal then 1 else 0
  {
  }

  lemma {:induction false} BigEndianMoved(b: seq<Byte>, pos: nat, tail: seq<Byte>, n: nat)
    requires n <= |tail| && pos + |tail| <= |b| && forall k :: 0 <= k < |tail| ==> b[pos + k] == tail[k]
    ensures BigEndian(b, pos, n) == BigEndian(tail, 0, n)
  {
    if n > 0 {
      BigEndianMoved(b, pos, tail, n - 1);
    }
  }

  /** A value lead byte and its tail, read back. */
  lemma ReadBack(b: seq<Byte>, lead: int, isFinal: bool, tail: seq<Byte>, rest: seq<Byte>)
    requires kMinOneByteValueLead <= lead < 0x80 && |tail| == ValueTail(lead)
    requires b == [lead * 2 + if isFinal then 1 else 0] + tail + rest
    ensures ValueFits(b, 0) && SkipValue(b, 0) == 1 + |tail| && IsFinalAt(b, 0) == isFinal
    ensures ValueAt(b, 0) == ReadValue(tail, 0, lead)
  {
    LeadByte(lead, isFinal);
    BigEndianMoved(b, 1, tail, |tail|);
  }

  /** The lead and tail which are written for a value make up the value. */
  lemma ReadRest(i: int)
    requires IsInt32(i)
    ensures ReadValue(ValueRest(i), 0, ValueLead(i)) == i
  {
    var tail, u := ValueRest(i), Unsigned(i);
    BigEndianUpTo4(tail, 0, |tail|);
    Digits(u);
    DigitsTogether(u, u / 0x100_0000, u / 0x1_0000 % 0x100, u / 0x100 % 0x100, u % 0x100);
    hide BigEndian;
    if i < 0 || i > 0xff_ffff {
      assert BigEndian(tail, 0, 4) == u;
    } else if i > kMaxThreeByteValue {
      assert BigEndian(tail, 0, 3) == u;
    } else if i > kMaxTwoByteValue {
      assert BigEndian(tail, 0, 2) == u % 0x1_0000;
    }
  }

  /** Every 32-bit value is read back, with its final bit and length. */
  lemma ValueRoundTrip(i: int, isFinal: bool, rest: seq<Byte>)
    requires IsInt32(i)
    ensures var b := ValueBytes(i, isFinal) + rest;
      && ValueFits(b, 0)
      && ValueAt(b, 0) == i
      && IsFinalAt(b, 0) == isFinal
      && SkipValue(b, 0) == |ValueBytes(i, isFinal)|
  {
    ReadRest(i);
    ReadBack(ValueBytes(i, isFinal) + rest, ValueLead(i), isFinal, ValueRest(i), rest);
  }

  lemma ShortValue(i: int, isFinal: bool)
    requires 0 <= i <= kMaxOneByteValue
    ensures ValueBytes(i, isFinal) == [(kMinOneByteValueLead + i) * 2 + if isFinal then 1 else 0]
  {
  }

  lemma LongValue(i: int, isFinal: bool, bytes: seq<Byte>)
    requires bytes != [] && bytes[0] == ValueLead(i) * 2 + if isFinal then 1 else 0
    requires bytes[1..] == ValueRest(i)
    ensures bytes == ValueBytes(i, isFinal)
  {
    hide ValueLead, ValueRest;
    assert bytes == [bytes[0]] + bytes[1..];
  }

  /** Is this delta read back from what is written for it? */
  predicate DeltaReadBack(i: nat, junk: seq<Byte>, rest: seq<Byte>)
    requires |junk| == 2
  {
    var b := DeltaBytes(i, junk) + rest;
    DeltaFits(b, 0) && DeltaAt(b, 0) == i && SkipDelta(b, 0) == |DeltaBytes(i, junk)|
  }

  /** Deltas of up to three bytes are read back; the junk bytes are not used. */
  lemma SmallDelta(i: nat, junk: seq<Byte>, rest: seq<Byte>)
    requires i <= kMaxThreeByteDelta && |junk| == 2
    ensures DeltaReadBack(i, junk, rest)
  {
    var bytes := DeltaBytes(i, junk);
    var b := bytes + rest;
    assert forall k :: 0 <= k < |bytes| ==> b[k] == bytes[k];
    Digits(i);
    BigEndianUpTo4(b, 1, |bytes| - 1);
  }

  /** Larger deltas are not, when the buffer holds the wrong bytes. */
  lemma LargeDelta(i: nat) returns (junk: seq<Byte>)
    requires kMaxThreeByteDelta < i
    ensures |junk| == 2 && forall rest :: !DeltaReadBack(i, junk, rest)
  {
    var wrong := (i / 0x100 % 0x100 + 1) % 0x100;
    junk := [wrong, wrong];
    var bytes := DeltaBytes(i, junk);
    forall rest
      ensures !DeltaReadBack(i, junk, rest)
    {
      var b := bytes + rest;
      assert forall k :: 0 <= k < |bytes| ==> b[k] == bytes[k];
      BigEndianUpTo4(b, 1, |bytes| - 1);
      hide BigEndian;
      if i <= 0xff_ffff {
        SecondByte(i, bytes[1], wrong, bytes[3]);
      } else {
        SecondByte(i, bytes[1] as int * 0x100 + bytes[2], wrong, bytes[4]);
      }
    }
  }

  /** A number with a given second-lowest byte. */
  lemma SecondByte(i: int, high: int, middle: int, low: int)
    requires 0 <= middle < 0x100 && 0 <= low < 0x100
    ensures i == high * 0x1_0000 + middle * 0x100 + low ==> i / 0x100 % 0x100 == middle
  {
    if i == high * 0x1_0000 + middle * 0x100 + low {
      assert i / 0x100 == high * 0x100 + middle;
    }
  }

  /** Exactly the deltas up to kMaxThreeByteDelta survive the round trip whatever the buffer held. */
  lemma DeltaRoundTrip(i: nat)
    ensures (forall junk, rest :: |junk| == 2 ==> DeltaReadBack(i, junk, rest)) <==> i <= kMaxThreeByteDelta
  {
    if i <= kMaxThreeByteDelta {
      forall junk: seq<Byte>, rest | |junk| == 2
        ensures DeltaReadBack(i, junk, rest)
      {
        SmallDelta(i, junk, rest);
      }
    } else {
      var junk := LargeDelta(i);
      assert !DeltaReadBack(i, junk, []);
    }
  }
}
