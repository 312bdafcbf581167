/** UTF-16 text: code units, surrogate pairs and code point boundaries. */
module Utf16 {
  import opened Basics

  newtype Unit = c: int | 0 <= c < 0x1_0000

  predicate IsLead(c: Unit) { 0xd800 <= c < 0xdc00 }

  predicate IsTrail(c: Unit) { 0xdc00 <= c < 0xe000 }

  /** Joins a surrogate pair. */
  function Supplementary(lead: Unit, trail: Unit): (c: int)
    requires IsLead(lead) && IsTrail(trail)
    ensures 0x1_0000 <= c <= 0x10_ffff
  {
    (lead as int - 0xd800) * 0x400 + (trail as int - 0xdc00) + 0x1_0000
  }

  /** Is there a surrogate pair at i? */
  predicate PairAt(s: seq<Unit>, i: int) {
    0 <= i < |s| - 1 && IsLead(s[i]) && IsTrail(s[i + 1])
  }

  /** The index after the code point which starts at i. */
  function Next(s: seq<Unit>, i: int): (n: int)
    requires 0 <= i < |s|
    ensures i < n <= |s|
  {
    if PairAt(s, i) then i + 2 else i + 1
  }

  /** The index of the code point which ends at i. */
  function Previous(s: seq<Unit>, i: int): (n: int)
    requires 0 < i <= |s|
    ensures 0 <= n < i
  {
    if PairAt(s, i - 2) then i - 2 else i - 1
  }

  /** The code point which starts at i; an unpaired surrogate stands for itself. */
  function CodePointAt(s: seq<Unit>, i: int): (c: int)
    requires 0 <= i < |s|
    ensures 0 <= c <= 0x10_ffff
  {
    if PairAt(s, i) then Supplementary(s[i], s[i + 1]) else s[i] as int
  }

  /** i does not split a surrogate pair. */
  predicate Boundary(s: seq<Unit>, i: int) {
    0 <= i <= |s| && !PairAt(s, i - 1)
  }

  lemma BoundaryStep(s: seq<Unit>, i: int)
    requires Boundary(s, i)
    ensures i < |s| ==> Boundary(s, Next(s, i)) && Previous(s, Next(s, i)) == i
    ensures i > 0 ==> Boundary(s, Previous(s, i)) && Next(s, Previous(s, i)) == i
  {
  }

  /** The code points of a text. */
  function Decode(s: seq<Unit>): seq<int> {
    if s == [] then [] else [CodePointAt(s, 0)] + Decode(s[Next(s, 0)..])
  }

  /** The first code point of a text is that of its prefix up to a boundary. */
  lemma FirstOfPrefix(s: seq<Unit>, i: int)
    requires Boundary(s, i) && i > 0
    ensures Next(s[..i], 0) == Next(s, 0) <= i && CodePointAt(s[..i], 0) == CodePointAt(s, 0)
    ensures Boundary(s[Next(s, 0)..], i - Next(s, 0))
  {
  }

  /** A boundary splits the text into two texts with separate code points. */
  lemma {:induction false} DecodeSplit(s: seq<Unit>, i: int)
    requires Boundary(s, i)
    ensures Decode(s) == Decode(s[..i]) + Decode(s[i..])
  {
    hide Decode, Next, CodePointAt, PairAt;
    DecodeFirst(s[..i]);
    if i == 0 {
      assert s[0..] == s;
    } else {
      FirstOfPrefix(s, i);
      DecodeFirst(s);
      var n := Next(s, 0);
      var head, rest := s[..i], s[n..];
      DecodeSplit(rest, i - n);
      assert head[n..] == rest[..i - n];
      assert s[i..] == rest[i - n..];
      Associate([CodePointAt(s, 0)], Decode(head[n..]), Decode(s[i..]));
    }
  }

  lemma DecodeFirst(s: seq<Unit>)
    ensures Decode(s) == if s == [] then [] else [CodePointAt(s, 0)] + Decode(s[Next(s, 0)..])
  {
  }

  /** The code points before a boundary, extended by the one which starts there. */
  lemma DecodeNext(s: seq<Unit>, i: int)
    requires Boundary(s, i) && i < |s|
    ensures Decode(s[..Next(s, i)]) == Decode(s[..i]) + [CodePointAt(s, i)]
  {
    var t := s[..Next(s, i)];
    DecodeSplit(t, i);
    assert t[..i] == s[..i];
    var u := t[i..];
    assert u == s[i..Next(s, i)];
    assert Next(u, 0) == |u| && CodePointAt(u, 0) == CodePointAt(s, i);
    assert u[Next(u, 0)..] == [];
  }

  /** The code points after a boundary, extended by the one which ends there. */
  lemma DecodePrevious(s: seq<Unit>, i: int)
    requires Boundary(s, i) && i > 0
    ensures Decode(s[Previous(s, i)..]) == [CodePointAt(s, Previous(s, i))] + Decode(s[i..])
  {
    var p := Previous(s, i);
    BoundaryStep(s, i);
    var u := s[p..];
    assert Next(u, 0) == i - p && CodePointAt(u, 0) == CodePointAt(s, p);
    assert u[i - p..] == s[i..];
  }

  lemma CodePointInside(s: seq<Unit>, from: int, p: int, to: int)
    requires Boundary(s, from) && Boundary(s, p) && Boundary(s, to) && from <= p < to
    ensures Boundary(s[from..to], p - from) && s[from..to][p - from..] == s[p..to] != []
    ensures CodePointAt(s[p..to], 0) == CodePointAt(s, p)
  {
  }

  /** The code point at p is among those of any part of the text with p inside. */
  lemma CodePointIn(s: seq<Unit>, from: int, p: int, to: int)
    requires Boundary(s, from) && Boundary(s, p) && Boundary(s, to)
    requires from <= p < to
    ensures CodePointAt(s, p) in Decode(s[from..to])
  {
    CodePointInside(s, from, p, to);
    hide Decode, Next, CodePointAt, PairAt, Boundary;
    var t := s[from..to];
    DecodeSplit(t, p - from);
    DecodeFirst(s[p..to]);
    assert Decode(s[p..to])[0] == CodePointAt(s, p);
    assert Decode(t)[|Decode(t[..p - from])|] == Decode(s[p..to])[0];
  }
}
