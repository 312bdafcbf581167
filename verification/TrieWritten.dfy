/** What the bytes in front of a serialized trie make of it. */
module TrieWritten {
  import opened Basics
  import opened Trie
  import opened TrieCodec
  import opened TrieFormat

  ghost predicate EndsWith(c: seq<Byte>, d: seq<Byte>) {
    |d| <= |c| && c[|c| - |d|..] == d
  }

  /** The node n starts offset bytes before the end. */
  ghost predicate NodeEnd(c: seq<Byte>, offset: int, n: Node) {
    0 <= offset <= |c| && NodeAt(c, |c| - offset, n)
  }

  ghost predicate BranchEnd(c: seq<Byte>, offset: int, kids: seq<Kid>) {
    0 <= offset <= |c| && BranchAt(c, |c| - offset, kids)
  }

  lemma EndsWithTwice(a: seq<Byte>, b: seq<Byte>, c: seq<Byte>)
    requires EndsWith(a, b) && EndsWith(b, c)
    ensures EndsWith(a, c)
  {
    assert a[|a| - |c|..] == a[|a| - |b|..][|b| - |c|..];
  }

  lemma NodeEndKept(c: seq<Byte>, d: seq<Byte>, offset: int, n: Node)
    requires EndsWith(c, d) && NodeEnd(d, offset, n)
    ensures NodeEnd(c, offset, n)
  {
    hide NodeAt;
    var prefix := c[..|c| - |d|];
    assert c == prefix + d;
    NodeMoved(prefix, d, |d| - offset, n);
  }

  lemma BranchEndKept(c: seq<Byte>, d: seq<Byte>, offset: int, kids: seq<Kid>)
    requires EndsWith(c, d) && BranchEnd(d, offset, kids)
    ensures BranchEnd(c, offset, kids)
  {
    hide BranchAt;
    var prefix := c[..|c| - |d|];
    assert c == prefix + d;
    BranchMoved(prefix, d, |d| - offset, kids);
  }

  /** A lead byte and a tail, written in front of d. */
  lemma Assemble(lead: Byte, tail: seq<Byte>, d: seq<Byte>, c: seq<Byte>)
    requires c == [lead] + (tail + d)
    ensures |c| == 1 + |tail| + |d| && c[0] == lead && c[1..1 + |tail|] == tail
    ensures EndsWith(c, d)
  {
    assert c[1 + |tail|..] == d;
  }

  /** A tail alone, written in front of d. */
  lemma AssembleTail(tail: seq<Byte>, d: seq<Byte>, c: seq<Byte>)
    requires c == tail + d
    ensures |c| == |tail| + |d| && EndsWith(c, d)
  {
  }

  lemma FinalWritten(d: seq<Byte>, value: int, c: seq<Byte>)
    requires IsInt32(value) && c == ValueBytes(value, true) + d
    ensures NodeAt(c, 0, Final(value))
  {
    ValueRoundTrip(value, true, d);
  }

  lemma IntermediateWritten(d: seq<Byte>, value: int, next: Node, c: seq<Byte>)
    requires IsInt32(value) && c == ValueBytes(value, false) + d
    requires NodeAt(d, 0, next) && !next.IsValue()
    ensures NodeAt(c, 0, Intermediate(value, next))
  {
    ValueRoundTrip(value, false, d);
    AssembleTail(ValueBytes(value, false), d, c);
    hide NodeAt, EndsWith, ValueBytes, ValueFits, ValueAt, IsFinalAt, SkipValue;
    NodeEndKept(c, d, |d|, next);
    MakeIntermediate(c, 0, value, next);
  }

  lemma MakeIntermediate(b: seq<Byte>, pos: nat, value: int, next: Node)
    requires ValueFits(b, pos) && !IsFinalAt(b, pos) && ValueAt(b, pos) == value
    requires !next.IsValue() && NodeAt(b, SkipValue(b, pos), next)
    ensures NodeAt(b, pos, Intermediate(value, next))
  {
    hide ValueFits, ValueAt, IsFinalAt, SkipValue;
  }

  lemma MakeLinear(b: seq<Byte>, pos: nat, bytes: seq<int>, next: Node)
    requires 0 < |bytes| <= kMaxLinearMatchLength && pos + |bytes| < |b|
    requires b[pos] == kMinLinearMatch + |bytes| - 1 && b[pos + 1..pos + 1 + |bytes|] == bytes
    requires NodeAt(b, pos + 1 + |bytes|, next)
    ensures NodeAt(b, pos, Linear(bytes, next))
  {
  }

  lemma LinearWritten(d: seq<Byte>, bytes: seq<Byte>, next: Node, c: seq<Byte>)
    requires 0 < |bytes| <= kMaxLinearMatchLength && NodeAt(d, 0, next)
    requires c == [kMinLinearMatch + |bytes| - 1] + (bytes + d)
    ensures NodeAt(c, 0, Linear(bytes, next))
  {
    Assemble(kMinLinearMatch + |bytes| - 1, bytes, d, c);
    hide NodeAt, EndsWith;
    NodeEndKept(c, d, |d|, next);
    MakeLinear(c, 0, bytes, next);
  }

  lemma BranchWritten(d: seq<Byte>, kids: seq<Kid>, c: seq<Byte>)
    requires 2 <= |kids| <= 0x100 && Increasing(kids) && BranchAt(d, 0, kids)
    requires if |kids| <= kMinLinearMatch then c == [|kids| - 1] + d else c == [0] + ([|kids| - 1] + d)
    ensures NodeAt(c, 0, Branch(kids))
  {
    hide BranchAt, EndsWith;
    if |kids| <= kMinLinearMatch {
      AssembleTail([|kids| - 1], d, c);
    } else {
      Assemble(0, [|kids| - 1], d, c);
      assert c[1] == c[1..2][0];
    }
    BranchEndKept(c, d, |d|, kids);
  }

  lemma MakeLastKid(b: seq<Byte>, pos: nat, kid: Kid)
    requires pos < |b| && b[pos] == kid.key && NodeAt(b, pos + 1, kid.node)
    ensures BranchAt(b, pos, [kid])
  {
    hide NodeAt;
    assert KidAt(b, pos + 1, kid);
  }

  lemma LastKidWritten(d: seq<Byte>, unit: Byte, n: Node, c: seq<Byte>)
    requires NodeAt(d, 0, n) && c == [unit] + d
    ensures BranchAt(c, 0, [Kid(unit, n)])
  {
    hide NodeAt, BranchAt;
    AssembleTail([unit], d, c);
    NodeEndKept(c, d, |d|, n);
    MakeLastKid(c, 0, Kid(unit, n));
  }

  lemma MakeListedKid(b: seq<Byte>, pos: nat, kid: Kid, kids: seq<Kid>)
    requires 1 <= |kids| < kMaxBranchLinearSubNodeLength
    requires pos < |b| && b[pos] == kid.key && ValueFits(b, pos + 1)
    requires ListedKidAt(b, pos + 1, kid) && BranchAt(b, SkipValue(b, pos + 1), kids)
    ensures BranchAt(b, pos, [kid] + kids)
  {
    hide ListedKidAt, ValueFits, SkipValue;
    assert ([kid] + kids)[1..] == kids;
  }

  lemma ListedKidWritten(d: seq<Byte>, unit: Byte, value: int, isFinal: bool, n: Node, kids: seq<Kid>, c: seq<Byte>)
    requires 1 <= |kids| < kMaxBranchLinearSubNodeLength && BranchAt(d, 0, kids) && IsInt32(value)
    requires if isFinal then n == Final(value) else NodeEnd(d, |d| - value, n)
    requires c == [unit] + (ValueBytes(value, isFinal) + d)
    ensures BranchAt(c, 0, [Kid(unit, n)] + kids)
  {
    hide NodeAt, BranchAt, EndsWith, ValueBytes, ValueFits, ValueAt, IsFinalAt, SkipValue;
    ValueRoundTrip(value, isFinal, d);
    ValueMoved([unit], ValueBytes(value, isFinal) + d, 0);
    Assemble(unit, ValueBytes(value, isFinal), d, c);
    BranchEndKept(c, d, |d|, kids);
    if !isFinal {
      NodeEndKept(c, d, |d| - value, n);
    }
    assert ListedKidAt(c, 1, Kid(unit, n));
    MakeListedKid(c, 0, Kid(unit, n), kids);
  }

  lemma MakeSplit(b: seq<Byte>, pos: nat, left: seq<Kid>, right: seq<Kid>)
    requires |left| == (|left| + |right|) / 2 && |left| + |right| > kMaxBranchLinearSubNodeLength
    requires pos < |b| && left[|left| - 1].key < b[pos] <= right[0].key
    requires DeltaFits(b, pos + 1) && JumpByDelta(b, pos + 1) >= 0
    requires BranchAt(b, JumpByDelta(b, pos + 1), left) && BranchAt(b, SkipDelta(b, pos + 1), right)
    ensures BranchAt(b, pos, left + right)
  {
    hide DeltaFits, JumpByDelta, SkipDelta;
    var all := left + right;
    assert all[..|left|] == left && all[|left|..] == right;
  }

  lemma SplitWritten(d: seq<Byte>, middle: Byte, target: nat, junk: seq<Byte>, left: seq<Kid>, right: seq<Kid>,
                     c: seq<Byte>)
    requires target <= |d| && |d| - target <= kMaxThreeByteDelta && |junk| == 2
    requires |left| == (|left| + |right|) / 2 && |left| + |right| > kMaxBranchLinearSubNodeLength
    requires left[|left| - 1].key < middle <= right[0].key
    requires BranchEnd(d, target, left) && BranchAt(d, 0, right)
    requires c == [middle] + (DeltaBytes(|d| - target, junk) + d)
    ensures BranchAt(c, 0, left + right)
  {
    hide BranchAt, EndsWith, DeltaBytes, DeltaFits, DeltaAt, SkipDelta, DeltaReadBack;
    var i := |d| - target;
    SmallDelta(i, junk, d);
    SplitDelta(d, middle, i, junk);
    Assemble(middle, DeltaBytes(i, junk), d, c);
    BranchEndKept(c, d, |d|, right);
    BranchEndKept(c, d, target, left);
    MakeSplit(c, 0, left, right);
  }

  lemma SplitDelta(d: seq<Byte>, middle: Byte, i: nat, junk: seq<Byte>)
    requires i <= kMaxThreeByteDelta && |junk| == 2
    ensures var c := [middle] + (DeltaBytes(i, junk) + d);
      DeltaFits(c, 1) && DeltaAt(c, 1) == i && SkipDelta(c, 1) == 1 + |DeltaBytes(i, junk)|
  {
    hide DeltaBytes, DeltaFits, DeltaAt, SkipDelta;
    SmallDelta(i, junk, d);
    DeltaMoved([middle], DeltaBytes(i, junk) + d, 0);
  }
}
