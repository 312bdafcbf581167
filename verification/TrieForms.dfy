/** The two ways to match a text: all of it as a string, or one char after the other. */
module TrieForms {
  import opened Basics
  import opened Trie
  import opened TrieCodec
  import opened TrieFormat
  import opened TrieCursor
  import C = BytesTrie
  import R = TrieRoundTrip

  /** The bytes which the chars of a text stand for. */
  function InBytes(text: seq<int>): (r: seq<int>)
    ensures |r| == |text| && forall k :: 0 <= k < |r| ==> r[k] == C.BytesTrie.InByte(text[k])
  {
    seq(|text|, k requires 0 <= k < |text| => C.BytesTrie.InByte(text[k]))
  }

  ghost predicate NoneNegative(text: seq<int>) {
    forall c :: c in text ==> 0 <= c
  }

  lemma NoneNegativeBytes(text: seq<int>)
    requires NoneNegative(text)
    ensures InBytes(text) == text
  {
    forall k | 0 <= k < |text|
      ensures InBytes(text)[k] == text[k]
    {
      assert text[k] in text;
    }
  }

  /** Matches a text one char after the other. */
  method FeedBytes(trie: C.BytesTrie, text: seq<int>) returns (result: Result)
    requires trie.Valid()
    modifies trie
    ensures trie.Valid() && trie.matched == old(trie.matched) + InBytes(text)
    ensures trie.Here() == Fold(trie.bytes, old(trie.Here()), InBytes(text))
    ensures result == Status(Pairs(trie.root), trie.matched)
  {
    hide NodeAt, Pairs, Status, StateOk, Tracks, After;
    ghost var st, b, start := trie.Here(), trie.bytes, trie.matched;
    assert st == Fold(b, st, []) && StateOk(b, st) by {
      OkNow(trie);
    }
    result := trie.Current();
    var i := 0;
    assert start + InBytes(text[..0]) == start;
    while i < |text|
      invariant i <= |text| && trie.Valid() && StateOk(b, st)
      invariant trie.matched == start + InBytes(text[..i]) && trie.Here() == Fold(b, st, InBytes(text[..i]))
      invariant result == Status(Pairs(trie.root), trie.matched)
    {
      result := trie.Next(text[i]);
      assert InBytes(text[..i + 1]) == InBytes(text[..i]) + [C.BytesTrie.InByte(text[i])];
      FoldMore(b, st, InBytes(text[..i]), C.BytesTrie.InByte(text[i]));
      assert start + InBytes(text[..i + 1]) == start + InBytes(text[..i]) + [C.BytesTrie.InByte(text[i])];
      i := i + 1;
    }
    assert text[..i] == text;
  }

  lemma OkNow(trie: C.BytesTrie)
    requires trie.Valid()
    ensures NodeAt(trie.bytes, 0, trie.root) && StateOk(trie.bytes, trie.Here())
  {
  }

  /**
   Exactly when the string form leaves the remaining length which single bytes leave: if all of the text matches, or
   none of it, or what matches ends outside of a linear-match node.
   */
  lemma RemainingAgrees(b: seq<Byte>, st: State, text: seq<int>)
    requires StateOk(b, st)
    ensures var m := MatchLength(b, st, text);
      StringRemaining(b, st, text) == Fold(b, st, text).remaining <==>
        Fold(b, st, text).node.Some? || m == 0 || Fold(b, st, text[..m]).remaining < 0
  {
    var m := MatchLength(b, st, text);
    if st.node == None {
      NothingMatches(b, st, text);
    } else {
      FoldMatched(b, st, text);
    }
  }

  /** A text with a char below 0 matches nothing, since the string form does not turn it into a byte. */
  lemma NegativeChar(pairs: seq<Pair>, text: seq<int>)
    requires C.ByteKeys(pairs) && !NoneNegative(text)
    ensures Status(pairs, text) == NoMatch
  {
    var c :| c in text && c < 0;
    var k :| 0 <= k < |text| && text[k] == c;
    forall p | p in pairs
      ensures !(text <= p.key)
    {
      assert |text| <= |p.key| ==> p.key[k] != text[k];
    }
  }

  /** No string of the map starts with these bytes. */
  ghost predicate NoneStarts(pairs: seq<Pair>, s: seq<int>) {
    forall p :: p in pairs ==> !(s <= p.key)
  }

  /** What the map says about the chars themselves and about their bytes differs if and only if a char which is below 0 matters. */
  lemma StringFormAgrees(pairs: seq<Pair>, start: seq<int>, text: seq<int>)
    requires C.ByteKeys(pairs)
    ensures Status(pairs, start + text) == Status(pairs, start + InBytes(text)) <==>
              NoneNegative(text) || NoneStarts(pairs, start + InBytes(text))
  {
    if NoneNegative(text) {
      NoneNegativeBytes(text);
    } else {
      var c :| c in text && c < 0;
      assert c in start + text;
      NegativeChar(pairs, start + text);
      assert HasPrefix(pairs, start + InBytes(text)) <==> !NoneStarts(pairs, start + InBytes(text));
    }
  }

  /**
   From the same state, the string form and single chars give the same result exactly when no char is below 0 or no string
   of the map starts with the bytes. Without such chars they also leave the same position, and the same remaining length
   except after a mismatch inside a linear-match node of which something has matched.
   */
  method BothForms(x: C.BytesTrie, y: C.BytesTrie, s: seq<int>, sLength: int) returns (asString: Result, asChars: Result)
    requires x != y && x.Valid() && y.Valid() && x.bytes == y.bytes && x.root == y.root
    requires x.Here() == y.Here() && x.matched == y.matched
    requires if sLength < 0 then 0 in s else sLength <= |s|
    modifies x, y
    ensures x.Valid() && y.Valid()
    ensures var text := C.Text(s, sLength);
      asString == asChars <==> NoneNegative(text) || NoneStarts(Pairs(x.root), old(x.matched) + InBytes(text))
    ensures NoneNegative(C.Text(s, sLength)) ==> asString == asChars && x.pos == y.pos && x.node == y.node && x.matched == y.matched
    ensures NoneNegative(C.Text(s, sLength)) ==>
      var b, st, text := x.bytes, old(x.Here()), C.Text(s, sLength); var m := MatchLength(b, st, text);
      x.remainingMatchLength == y.remainingMatchLength <==>
        asString != NoMatch || m == 0 || Fold(b, st, text[..m]).remaining < 0
  {
    hide NodeAt, Pairs, Status, StateOk, Tracks, Fold, After, MatchLength, C.ByteKeys, NoneStarts;
    ghost var st, b, text := x.Here(), x.bytes, C.Text(s, sLength);
    OkNow(x);
    R.NodeByteKeys(b, 0, x.root);
    StringFormAgrees(Pairs(x.root), x.matched, text);
    RemainingAgrees(b, st, text);
    if NoneNegative(text) {
      NoneNegativeBytes(text);
    }
    asString := x.NextString(s, sLength);
    var chars := s[..CharCount(s, sLength)];
    asChars := FeedBytes(y, chars);
    assert chars == text by {
      C.TextEnds(s, sLength);
    }
    OkNode(b, Fold(b, st, text));
  }

  lemma OkNode(b: seq<Byte>, st: State)
    requires StateOk(b, st)
    ensures st.pos == NULL <==> st.node == None
  {
  }

  /** The length of a text. */
  function CharCount(s: seq<int>, sLength: int): (n: nat)
    requires if sLength < 0 then 0 in s else sLength <= |s|
    ensures n <= |s| && n == |C.Text(s, sLength)|
  {
    if sLength >= 0 then sLength else if s[0] == 0 then 0 else 1 + CharCount(s[1..], sLength)
  }

  /** A map and a char below 0 for which the two forms differ. */
  lemma NegativeDiffers(v: int)
    ensures var pairs := [Pair([0xe1], v)];
      Status(pairs, [-0x1f]) == NoMatch && Status(pairs, InBytes([-0x1f])) == FinalValue
  {
    var pairs := [Pair([0xe1], v)];
    assert pairs[0] in pairs && InBytes([-0x1f]) == [0xe1];
    assert [0xe1] <= pairs[0].key && [-0x1f][0] != pairs[0].key[0];
  }

  /** The map of abc alone, and its bytes. */
  const Abc: seq<Byte> := [0x12, 0x61, 0x62, 0x63, 0x2b]
  const AbcNode := Linear([0x61, 0x62, 0x63], Final(5))

  /** The text aX leaves different remaining lengths, from the start of abc and from inside of it. */
  lemma RemainingDiffers()
    ensures NodeAt(Abc, 0, AbcNode) && Pairs(AbcNode) == [Pair([0x61, 0x62, 0x63], 5)]
    ensures var st := State(0, -1, Some(AbcNode));
      && StateOk(Abc, st)
      && StringRemaining(Abc, st, [0x61, 0x58]) == -1 && Fold(Abc, st, [0x61, 0x58]) == State(NULL, 1, None)
    ensures var st := State(1, 2, Some(AbcNode));
      && StateOk(Abc, st)
      && StringRemaining(Abc, st, [0x61, 0x58]) == 2 && Fold(Abc, st, [0x61, 0x58]) == State(NULL, 1, None)
  {
    assert Pairs(AbcNode) == [Pair([0x61, 0x62, 0x63], 5)] by {
      assert [0x61, 0x62, 0x63] + [] == [0x61, 0x62, 0x63];
    }
    assert Abc[1..4] == [0x61, 0x62, 0x63];
    assert ValueFits(Abc, 4) && IsFinalAt(Abc, 4) && ValueAt(Abc, 4) == 5;
    assert NodeAt(Abc, 4, Final(5));
    assert NodeAt(Abc, 0, AbcNode);
    var st, inside := State(0, -1, Some(AbcNode)), State(1, 2, Some(AbcNode));
    var one := After(Abc, st, 0x61);
    assert one == After(Abc, inside, 0x61) && one.remaining == 1 && one.pos == 2;
    assert After(Abc, one, 0x58) == State(NULL, 1, None);
    assert [0x61, 0x58][1..] == [0x58] && [0x58][1..] == [];
  }
}
