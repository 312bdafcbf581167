/** Dictionary words in numbers: what the transform constant means for the bytes of a text. */
module DictionaryNumbers {
  import opened Basics
  import opened Trie
  import opened TrieFormat
  import opened Utf16
  import opened UText
  import opened DictionaryMatcher

  /** The byte of a code point for the offset o: ff and fe for the joiners, and ff for all which are not from o to o + fd. */
  function OffsetByte(o: nat, c: int): int {
    if c == 0x200d then 0xff else if c == 0x200c then 0xfe else if o <= c <= o + 0xfd then c - o else 0xff
  }

  function OffsetKey(o: nat, cps: seq<int>): (key: seq<int>)
    ensures |key| == |cps| && forall i :: 0 <= i < |cps| ==> key[i] == OffsetByte(o, cps[i])
  {
    seq(|cps|, i requires 0 <= i < |cps| => OffsetByte(o, cps[i]))
  }

  /**
   The whole text in a dictionary with this transform constant: is it a word, and what is its value? Bits 24 to 30 of the
   constant are 1 for an offset, which is in bits 0 to 20; with any other type the code points are the bytes.
   */
  method FindText(bytes: seq<Byte>, constant: int, s: seq<Unit>, ghost root: Node) returns (found: bool, value: int)
    requires NodeAt(bytes, 0, root) && s != []
    ensures forall o: nat :: 0x100_0000 <= constant % 0x8000_0000 < 0x200_0000 && o == constant % 0x20_0000 ==>
              && (found <==> HasKey(Pairs(root), OffsetKey(o, Decode(s))))
              && (found ==> Pair(OffsetKey(o, Decode(s)), value) in Pairs(root))
    ensures !(0x100_0000 <= constant % 0x8000_0000 < 0x200_0000) ==>
              && (found <==> HasKey(Pairs(root), Decode(s)))
              && (found ==> Pair(Decode(s), value) in Pairs(root))
  {
    hide NodeAt, Pairs, HasKey, Decode, Dictionary.Words, Dictionary.PrefixLength, Dictionary.IsWord, Dictionary.ValueOf,
         TransformFrom, Key, OffsetKey, BytesDictionaryMatcher.Valid;
    var matcher := new BytesDictionaryMatcher(bytes, constant, root);
    var text := new UText(s);
    ghost var d := matcher.Dict();
    var words, prefix := matcher.Matches(text, |s|, |s|);
    found, value := false, 0;
    if words != [] && words[|words| - 1].cuLength == |s| {
      found, value := true, words[|words| - 1].value;
    }
    WholeWord(d, s, words);
    forall o: nat | 0x100_0000 <= constant % 0x8000_0000 < 0x200_0000 && o == constant % 0x20_0000
      ensures Key(d.transform, Decode(s)) == OffsetKey(o, Decode(s))
    {
      OffsetBytes(constant, o, Decode(s));
    }
    if !(0x100_0000 <= constant % 0x8000_0000 < 0x200_0000) {
      PlainBytes(constant, s);
    }
  }

  /** The last of the words at the start is the whole text, if that is a word. */
  lemma WholeWord(d: Dictionary, s: seq<Unit>, words: seq<Candidate>)
    requires s != [] && words == d.FirstWords(s, 0, |s|, |s|)
    ensures var found := words != [] && words[|words| - 1].cuLength == |s|;
      && (found <==> HasKey(d.words, Key(d.transform, Decode(s))))
      && (found ==> Pair(Key(d.transform, Decode(s)), words[|words| - 1].value) in d.words)
  {
    hide Decode, Dictionary.Words, Dictionary.FirstWords, Dictionary.IsWord, Dictionary.ValueOf, Key, HasKey;
    AllFound(d, s);
    IsHasKey(d, s);
    LastWord(d, s);
  }

  lemma LastWord(d: Dictionary, s: seq<Unit>)
    requires s != []
    ensures var all := d.Words(s, 0, 0, 0, |s|); var found := all != [] && all[|all| - 1].cuLength == |s|;
      && (found <==> d.IsWord(s, 0, |s|))
      && (found ==> all[|all| - 1].value == d.ValueOf(s, 0, |s|))
  {
    hide Decode, Dictionary.Words, Dictionary.IsWord, Dictionary.ValueOf, Key, HasKey, Next, PairAt, Boundary;
    var all := d.Words(s, 0, 0, 0, |s|);
    TextEnds(s);
    AllFound(d, s);
    if d.IsWord(s, 0, |s|) {
      WordLengths(d, s, 0, |s|, |s|);
      var w :| w in all && w.cuLength == |s|;
      assert all[|all| - 1] == w;
    }
    if all != [] {
      WordsSound(d, s, 0, 0, 0, |s|, |all| - 1);
    }
  }

  /** All words are found, and only the last one can be as long as the text. */
  lemma AllFound(d: Dictionary, s: seq<Unit>)
    requires s != []
    ensures d.FirstWords(s, 0, |s|, |s|) == d.Words(s, 0, 0, 0, |s|)
    ensures var all := d.Words(s, 0, 0, 0, |s|); forall w :: w in all && w.cuLength == |s| ==> all[|all| - 1] == w
  {
    hide Decode, Dictionary.Words, Dictionary.FirstWords, LengthsAscend;
    FirstWordsShortest(d, s, 0, |s|, |s|);
    AllShorter(d, s);
    LastIsLongest(d.Words(s, 0, 0, 0, |s|), |s|);
  }

  lemma TextEnds(s: seq<Unit>)
    ensures Boundary(s, 0) && Boundary(s, |s|) && s[0..|s|] == s
  {
  }

  lemma IsHasKey(d: Dictionary, s: seq<Unit>)
    ensures d.IsWord(s, 0, |s|) <==> HasKey(d.words, Key(d.transform, Decode(s)))
    ensures d.IsWord(s, 0, |s|) ==> Pair(Key(d.transform, Decode(s)), d.ValueOf(s, 0, |s|)) in d.words
  {
    hide Decode;
    assert s[0..|s|] == s;
  }

  /** There are at most as many words as code units, and only the last one can be as long as the text. */
  lemma LastIsLongest(all: seq<Candidate>, n: nat)
    requires LengthsAscend(all) && forall i :: 0 <= i < |all| ==> 0 < all[i].cuLength <= n
    ensures |all| <= n
    ensures forall w :: w in all && w.cuLength == n ==> all[|all| - 1] == w
  {
    if all != [] {
      AtLeast(all, |all| - 1);
    }
  }

  lemma AllShorter(d: Dictionary, s: seq<Unit>)
    requires s != []
    ensures LengthsAscend(d.Words(s, 0, 0, 0, |s|))
  {
    WordsAscend(d, s, 0, 0, 0, |s|);
  }

  lemma TypeBits(constant: int)
    ensures constant / 0x100_0000 % 0x80 == constant % 0x8000_0000 / 0x100_0000
  {
    var high, low := constant / 0x8000_0000, constant % 0x8000_0000;
    var middle, rest := low / 0x100_0000, low % 0x100_0000;
    assert constant == (high * 0x80 + middle) * 0x100_0000 + rest && 0 <= middle < 0x80;
    assert constant / 0x100_0000 == high * 0x80 + middle;
  }

  lemma OffsetBytes(constant: int, o: nat, cps: seq<int>)
    requires 0x100_0000 <= constant % 0x8000_0000 < 0x200_0000 && o == constant % 0x20_0000
    ensures Key(TransformFrom(constant), cps) == OffsetKey(o, cps)
  {
    TypeBits(constant);
  }

  lemma PlainBytes(constant: int, s: seq<Unit>)
    requires !(0x100_0000 <= constant % 0x8000_0000 < 0x200_0000)
    ensures Key(TransformFrom(constant), Decode(s)) == Decode(s)
  {
    TypeBits(constant);
    NotNegative(s);
  }

  lemma {:induction false} NotNegative(s: seq<Unit>)
    ensures forall c :: c in Decode(s) ==> c >= 0
  {
    if s != [] {
      NotNegative(s[Next(s, 0)..]);
    }
  }
}
