/** Well-formed UTF-8 as defined by section 4 of RFC 3629. */
module Utf8 {
  import opened Basics

  predicate IsTrailByte(b: Byte) { 0x80 <= b < 0xc0 }

  predicate IsScalar(c: int) {
    0 <= c < 0xd800 || 0xe000 <= c <= 0x10_ffff
  }

  /** The byte sequence of one code point. */
  function Sequence(c: int): (bytes: seq<Byte>)
    requires IsScalar(c)
    ensures 1 <= |bytes| <= 4
  {
    if c < 0x80 then
      [c as Byte]
    else if c < 0x800 then
      [(0xc0 + c / 0x40) as Byte, (0x80 + c % 0x40) as Byte]
    else if c < 0x1_0000 then
      [(0xe0 + c / 0x1000) as Byte, (0x80 + c / 0x40 % 0x40) as Byte, (0x80 + c % 0x40) as Byte]
    else
      [(0xf0 + c / 0x4_0000) as Byte, (0x80 + c / 0x1000 % 0x40) as Byte,
       (0x80 + c / 0x40 % 0x40) as Byte, (0x80 + c % 0x40) as Byte]
  }

  predicate AllScalar(cps: seq<int>) {
    forall k :: 0 <= k < |cps| ==> IsScalar(cps[k])
  }

  /** The byte sequences of the code points, one after the other. */
  function Encode(cps: seq<int>): seq<Byte>
    requires AllScalar(cps)
  {
    if cps == [] then [] else Encode(cps[..|cps| - 1]) + Sequence(cps[|cps| - 1])
  }

  /** The byte offset of code point number k. */
  function Offset(cps: seq<int>, k: nat): nat
    requires AllScalar(cps) && k <= |cps|
  {
    |Encode(cps[..k])|
  }

  lemma {:induction false} EncodePrefix(cps: seq<int>, k: nat)
    requires AllScalar(cps) && k <= |cps|
    ensures Offset(cps, k) <= |Encode(cps)|
    ensures Encode(cps)[..Offset(cps, k)] == Encode(cps[..k])
    decreases |cps| - k
  {
    if k == |cps| {
      assert cps[..k] == cps;
    } else {
      EncodePrefix(cps, k + 1);
      var t := cps[..k + 1];
      assert t[..|t| - 1] == cps[..k];
    }
  }

  /** The bytes of code point number k stand at its offset. */
  lemma SequenceAt(cps: seq<int>, k: nat)
    requires AllScalar(cps) && k < |cps|
    ensures Offset(cps, k + 1) == Offset(cps, k) + |Sequence(cps[k])| <= |Encode(cps)|
    ensures forall j :: 0 <= j < |Sequence(cps[k])| ==> Encode(cps)[Offset(cps, k) + j] == Sequence(cps[k])[j]
  {
    EncodePrefix(cps, k + 1);
    var t := cps[..k + 1];
    assert t[..|t| - 1] == cps[..k];
    assert Encode(t) == Encode(cps[..k]) + Sequence(cps[k]);
    forall j | 0 <= j < |Sequence(cps[k])|
      ensures Encode(cps)[Offset(cps, k) + j] == Sequence(cps[k])[j]
    {
      assert Encode(cps)[Offset(cps, k) + j] == Encode(cps)[..Offset(cps, k + 1)][Offset(cps, k) + j];
    }
  }

  lemma OffsetEnd(cps: seq<int>)
    requires AllScalar(cps)
    ensures Offset(cps, |cps|) == |Encode(cps)|
  {
    assert cps[..|cps|] == cps;
  }

  /** A lead byte before limit is followed by its trail bytes or by a byte which is not one. */
  predicate LeadComplete(s: seq<Byte>, p: int)
    requires 0 <= p < |s|
  {
    s[p] >= 0xc0 ==>
      && p + 1 < |s|
      && (s[p] >= 0xe0 && IsTrailByte(s[p + 1]) ==> p + 2 < |s|)
      && (s[p] >= 0xf0 && IsTrailByte(s[p + 1]) && IsTrailByte(s[p + 2]) ==> p + 3 < |s|)
  }

  /** The number of bytes in the sequence at p; 1 for a byte of an illegal one. */
  function LengthAt(s: seq<Byte>, p: int): (n: int)
    requires 0 <= p < |s| && LeadComplete(s, p)
    ensures 1 <= n <= 4 && p + n <= |s|
  {
    if s[p] < 0xc0 || !IsTrailByte(s[p + 1]) then 1
    else if s[p] < 0xe0 then 2
    else if !IsTrailByte(s[p + 2]) then 1
    else if s[p] < 0xf0 then 3
    else if !IsTrailByte(s[p + 3]) then 1
    else 4
  }

  /** The bits of the sequence at p, put together. */
  function BitsAt(s: seq<Byte>, p: int): int
    requires 0 <= p < |s| && LeadComplete(s, p)
  {
    match LengthAt(s, p)
    case 2 => (s[p] as int - 0xc0) * 0x40 + (s[p + 1] as int - 0x80)
    case 3 => (s[p] as int - 0xe0) * 0x1000 + (s[p + 1] as int - 0x80) * 0x40 + (s[p + 2] as int - 0x80)
    case 4 => (s[p] as int - 0xf0) * 0x4_0000 + (s[p + 1] as int - 0x80) * 0x1000
              + (s[p + 2] as int - 0x80) * 0x40 + (s[p + 3] as int - 0x80)
    case _ => s[p] as int
  }

  /** The shortest sequence with these bits has this length. */
  predicate IsShortest(length: int, c: int) {
    match length
    case 2 => 0x80 <= c < 0x800
    case 3 => 0x800 <= c < 0x1_0000 && !(0xd800 <= c < 0xe000)
    case 4 => 0x1_0000 <= c <= 0x10_ffff
    case _ => 0 <= c < 0x80
  }

  lemma Digits(c: int)
    requires 0 <= c
    ensures c == c / 0x1000 * 0x1000 + c / 0x40 % 0x40 * 0x40 + c % 0x40
    ensures c / 0x1000 == c / 0x4_0000 * 0x40 + c / 0x1000 % 0x40
  {
  }

  /** Reading the sequence of a code point gives the code point back. */
  lemma SequenceRead(s: seq<Byte>, p: int, c: int)
    requires IsScalar(c) && 0 <= p <= p + |Sequence(c)| <= |s|
    requires forall j :: 0 <= j < |Sequence(c)| ==> s[p + j] == Sequence(c)[j]
    ensures LeadComplete(s, p) && LengthAt(s, p) == |Sequence(c)|
    ensures BitsAt(s, p) == c && IsShortest(LengthAt(s, p), c)
    ensures s[p] >= 0x80 ==> s[p] >= 0xc0 && LengthAt(s, p) >= 2
  {
    Digits(c);
    var bytes := Sequence(c);
    assert s[p + 0] == bytes[0];
    if c < 0x80 {
    } else if c < 0x800 {
      assert s[p + 1] == bytes[1];
    } else if c < 0x1_0000 {
      assert s[p + 1] == bytes[1] && s[p + 2] == bytes[2];
    } else {
      assert s[p + 1] == bytes[1] && s[p + 2] == bytes[2] && s[p + 3] == bytes[3];
    }
  }

  /** How many bytes an incomplete sequence at the end of the text takes up. */
  function Incomplete(s: seq<Byte>): (n: int)
    requires |s| > 0
    ensures 0 <= n <= |s|
  {
    var length := |s|;
    if s[length - 1] < 0x80 then 0
    else if s[length - 1] >= 0xc0 then 1
    else if length >= 2 && s[length - 2] >= 0xe0 then 2
    else if length >= 3 && IsTrailByte(s[length - 2]) && s[length - 3] >= 0xf0 then 3
    else 0
  }

  /** Every lead byte before an incomplete end is complete. */
  lemma BeforeIncomplete(s: seq<Byte>, p: int)
    requires |s| > 0 && 0 <= p < |s| - Incomplete(s)
    ensures LeadComplete(s, p)
  {
  }

  /** A text which ends with a complete sequence does not end with an incomplete one. */
  lemma EndsComplete(s: seq<Byte>, start: int, p: int)
    requires 0 <= start <= p < |s| && LeadComplete(s, p) && p + LengthAt(s, p) == |s|
    requires s[p] < 0x80 || LengthAt(s, p) >= 2
    ensures Incomplete(s[start..]) == 0
  {
    var t, n := s[start..], |s| - start;
    assert t[n - 1] == s[|s| - 1];
    assert n >= 2 ==> t[n - 2] == s[|s| - 2];
    assert n >= 3 ==> t[n - 3] == s[|s| - 3];
  }

  lemma {:induction false} OffsetsIncrease(cps: seq<int>, j: nat, k: nat)
    requires AllScalar(cps) && j <= k <= |cps|
    ensures Offset(cps, j) + (k - j) <= Offset(cps, k)
    decreases k
  {
    if j < k {
      SequenceAt(cps, k - 1);
      OffsetsIncrease(cps, j, k - 1);
    }
  }

  /** The last sequence of a well-formed text is complete. */
  lemma LastComplete(s: seq<Byte>, cps: seq<int>)
    requires AllScalar(cps) && s == Encode(cps) && cps != []
    ensures var p := Offset(cps, |cps| - 1);
      p < |s| && LeadComplete(s, p) && p + LengthAt(s, p) == |s| && (s[p] < 0x80 || LengthAt(s, p) >= 2)
  {
    hide Encode, Offset, Incomplete, LeadComplete, Sequence, LengthAt, BitsAt;
    var k := |cps| - 1;
    var p := Offset(cps, k);
    SequenceAt(cps, k);
    OffsetEnd(cps);
    SequenceRead(s, p, cps[k]);
  }

  /** What remains of a well-formed text does not end in an incomplete sequence. */
  lemma RestIsComplete(s: seq<Byte>, cps: seq<int>, j: nat)
    requires AllScalar(cps) && s == Encode(cps) && j < |cps|
    ensures Offset(cps, j) < |s| && Incomplete(s[Offset(cps, j)..]) == 0
  {
    hide Encode, Offset, Incomplete, LeadComplete, Sequence, LengthAt;
    LastComplete(s, cps);
    OffsetsIncrease(cps, j, |cps| - 1);
    EndsComplete(s, Offset(cps, j), Offset(cps, |cps| - 1));
  }
}
