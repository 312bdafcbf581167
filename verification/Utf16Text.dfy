/** UTF-16 text for given code points. */
module Utf16Text {
  import opened Utf16

  predicate IsCodePoint(c: int) { 0 <= c <= 0x10_ffff }

  /** Would a and b become one code point? */
  predicate Joins(a: int, b: int) { 0xd800 <= a < 0xdc00 && 0xdc00 <= b < 0xe000 }

  /** Code points which can follow each other as separate code points. */
  ghost predicate Separate(cps: seq<int>) {
    && (forall i :: 0 <= i < |cps| ==> IsCodePoint(cps[i]))
    && forall i :: 0 <= i < |cps| - 1 ==> !Joins(cps[i], cps[i + 1])
  }

  /** The code units of a code point. */
  function Units(c: int): (u: seq<Unit>)
    requires IsCodePoint(c)
    ensures |u| == if c < 0x1_0000 then 1 else 2
  {
    if c < 0x1_0000 then [c as Unit]
    else [(0xd800 + (c - 0x1_0000) / 0x400) as Unit, (0xdc00 + (c - 0x1_0000) % 0x400) as Unit]
  }

  function Encode(cps: seq<int>): seq<Unit>
    requires forall i :: 0 <= i < |cps| ==> IsCodePoint(cps[i])
  {
    if cps == [] then [] else Units(cps[0]) + Encode(cps[1..])
  }

  /** Separate code points are read back. */
  lemma {:induction false} EncodeRoundTrip(cps: seq<int>)
    requires Separate(cps)
    ensures Decode(Encode(cps)) == cps
  {
    if cps != [] {
      var u, rest := Units(cps[0]), Encode(cps[1..]);
      EncodeRoundTrip(cps[1..]);
      if cps[1..] != [] {
        assert rest == Units(cps[1]) + Encode(cps[2..]) by {
          assert cps[1..][1..] == cps[2..];
        }
        assert !Joins(cps[0], cps[1]);
      }
      assert Next(u + rest, 0) == |u| && CodePointAt(u + rest, 0) == cps[0];
      assert (u + rest)[|u|..] == rest;
      assert [cps[0]] + cps[1..] == cps;
    }
  }

  /** What is read from text are separate code points. */
  lemma {:induction false} DecodeSeparate(s: seq<Unit>)
    ensures Separate(Decode(s))
  {
    if s != [] {
      var n := Next(s, 0);
      var rest := s[n..];
      DecodeSeparate(rest);
      var first, others := CodePointAt(s, 0), Decode(rest);
      if rest != [] {
        assert others[0] == CodePointAt(rest, 0);
        assert !Joins(first, others[0]);
      }
      assert forall i :: 1 <= i < |Decode(s)| ==> Decode(s)[i] == others[i - 1];
    }
  }
}
