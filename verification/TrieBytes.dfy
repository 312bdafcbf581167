/** The bytes of a serialized trie, in numbers. */
module TrieBytes {
  import opened Basics
  import opened Trie
  import opened TrieCodec
  import opened TrieFormat

  /** The bytes of a value: one for 0..40, two up to 1aff, three up to 11ffff, four up to ffffff, and five for all others. */
  lemma ValueFormat(i: int, isFinal: bool)
    requires -0x8000_0000 <= i < 0x8000_0000
    ensures var f, u := if isFinal then 1 else 0, if i < 0 then i + 0x1_0000_0000 else i;
      ValueBytes(i, isFinal) ==
        if 0 <= i <= 0x40 then [0x20 + 2 * i + f]
        else if 0 <= i <= 0x1aff then [0xa2 + 2 * (i / 0x100) + f, i % 0x100]
        else if 0 <= i <= 0x11_ffff then [0xd8 + 2 * (i / 0x1_0000) + f, i / 0x100 % 0x100, i % 0x100]
        else if 0 <= i <= 0xff_ffff then [0xfc + f, i / 0x1_0000, i / 0x100 % 0x100, i % 0x100]
        else [0xfe + f, u / 0x100_0000, u / 0x1_0000 % 0x100, u / 0x100 % 0x100, u % 0x100]
  {
    Digits(Unsigned(i));
  }

  /** The bytes of a jump delta: one up to bf, two up to 2fff, three up to dffff. */
  lemma DeltaFormat(i: nat, junk: seq<Byte>)
    requires i <= 0xd_ffff && |junk| == 2
    ensures DeltaBytes(i, junk) ==
      if i <= 0xbf then [i]
      else if i <= 0x2fff then [0xc0 + i / 0x100, i % 0x100]
      else [0xf0 + i / 0x1_0000, i / 0x100 % 0x100, i % 0x100]
  {
  }

  /** The lead byte tells the kind of a node: a branch, a linear match, a value which goes on or a final value. */
  lemma NodeLeads(b: seq<Byte>, pos: nat, n: Node)
    requires NodeAt(b, pos, n)
    ensures pos < |b|
    ensures n.Branch? <==> b[pos] < 0x10
    ensures n.Linear? <==> 0x10 <= b[pos] < 0x20
    ensures n.Intermediate? <==> 0x20 <= b[pos] && b[pos] % 2 == 0
    ensures n.Final? <==> 0x20 <= b[pos] && b[pos] % 2 == 1
    ensures n.Branch? ==> |n.kids| - 1 == if b[pos] > 0 then b[pos] else if pos + 1 < |b| then b[pos + 1] else -1
    ensures n.Linear? ==> |n.bytes| == b[pos] - 0xf && pos + |n.bytes| < |b| && b[pos + 1..pos + 1 + |n.bytes|] == n.bytes
  {
  }

  /** More than five kids are searched by a middle byte and a jump to the lower half, up to five one after the other. */
  lemma BranchBytes(b: seq<Byte>, pos: nat, kids: seq<Kid>)
    requires BranchAt(b, pos, kids)
    ensures 0 < |kids| && pos < |b|
    ensures |kids| <= 5 ==> b[pos] == kids[0].key
    ensures |kids| > 5 ==> kids[|kids| / 2 - 1].key < b[pos] <= kids[|kids| / 2].key
  {
  }
}
