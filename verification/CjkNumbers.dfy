/** The words of Chinese and Japanese text and their costs, in numbers. */
module CjkNumbers {
  import opened Basics
  import opened Trie
  import opened Utf16
  import opened DictionaryMatcher
  import opened CjkSegments
  import opened CjkEngine

  /** Does a run of Katakana start at i, which ends at end? It goes on over Katakana characters up to a length of 20. */
  ghost predicate KatakanaRun(s: seq<Unit>, i: nat, end: nat) {
    && i < end <= |s| && end <= i + 20
    && (forall k :: i <= k < end ==> InKatakana(s[k]))
    && (i == 0 || !InKatakana(s[i - 1]))
    && (end == |s| || end == i + 20 || !InKatakana(s[end]))
  }

  /** A character from U+30A1 to U+30FE but U+30FB, or from U+FF66 to U+FF9F. */
  predicate InKatakana(c: Unit) {
    0x30a1 <= c <= 0x30fa || 0x30fc <= c <= 0x30fe || 0xff66 <= c <= 0xff9f
  }

  ghost predicate NoSyllables(s: seq<Unit>) {
    forall k :: 0 <= k < |s| ==> !(0xac00 <= s[k] <= 0xd7a3)
  }

  /** The costs of runs of length 1 to 8. */
  const RUN_COSTS: seq<nat> := [984, 408, 240, 204, 252, 300, 372, 480]

  /**
   All words at i: the dictionary words of at most 20 characters with their values, one character of cost 255 if it is no
   dictionary word and no Hangul syllable, and a run of less than 20 Katakana characters with the cost of its length.
   */
  lemma WordsAt(g: Input, i: nat, t: Step)
    requires NoPairs(g.s) && NoSyllables(g.s) && i < |g.s|
    ensures t in g.From(i) <==>
      || (0 < t.length <= 20 && i + t.length <= |g.s| && g.dict.IsWord(g.s, i, i + t.length)
          && t.cost == Unsigned(g.dict.ValueOf(g.s, i, i + t.length)))
      || (t == Step(1, 255) && !g.dict.IsWord(g.s, i, i + 1))
      || (KatakanaRun(g.s, i, i + t.length) && t.length < 20
          && t.cost == if t.length <= 8 then RUN_COSTS[t.length - 1] else 8192)
  {
    hide Dictionary.IsWord, Dictionary.ValueOf, Input.Words, Input.KatakanaSteps, Input.NeedsFallback, IsRun;
    DictionarySteps(g, i, t);
    RunStarts(g, i);
    if t.length > 0 {
      SameRun(g.s, i, i + t.length);
    }
  }

  lemma SameRun(s: seq<Unit>, i: nat, end: nat)
    requires i < |s|
    ensures KatakanaRun(s, i, end) <==> IsKatakana(s[i]) && (i == 0 || !IsKatakana(s[i - 1])) && IsRun(s, i, end)
  {
  }

  /** A Hangul syllable which is no dictionary word is no word at all. */
  lemma SyllableAlone(g: Input, i: nat, t: Step)
    requires NoPairs(g.s) && i < |g.s| && 0xac00 <= g.s[i] <= 0xd7a3
    ensures t in g.From(i) <==>
      && 0 < t.length <= 20 && i + t.length <= |g.s| && g.dict.IsWord(g.s, i, i + t.length)
      && t.cost == Unsigned(g.dict.ValueOf(g.s, i, i + t.length))
  {
    hide Dictionary.IsWord, Dictionary.ValueOf, Input.Words, Input.NeedsFallback;
    DictionarySteps(g, i, t);
  }

  /** The dictionary words and the single character at i. */
  lemma DictionarySteps(g: Input, i: nat, t: Step)
    requires NoPairs(g.s) && i < |g.s|
    ensures t in Steps(g.Words(i)) <==>
      && 0 < t.length <= 20 && i + t.length <= |g.s| && g.dict.IsWord(g.s, i, i + t.length)
      && t.cost == Unsigned(g.dict.ValueOf(g.s, i, i + t.length))
    ensures g.NeedsFallback(i) <==> !g.dict.IsWord(g.s, i, i + 1) && !(0xac00 <= g.s[i] <= 0xd7a3)
  {
    hide Decode, Dictionary.Words, Dictionary.IsWord, Dictionary.ValueOf;
    var words := g.Words(i);
    forall k | 0 <= k < |words|
      ensures words[k].cuLength <= 20 && g.dict.IsWord(g.s, i, i + words[k].cuLength)
      ensures words[k].value == g.dict.ValueOf(g.s, i, i + words[k].cuLength)
    {
      WordIs(g, i, k);
    }
    if 0 < t.length <= 20 && i + t.length <= |g.s| && g.dict.IsWord(g.s, i, i + t.length) {
      var k := WordAt(g, i, t.length);
      assert Steps(words)[k] in Steps(words);
    }
    if g.dict.IsWord(g.s, i, i + 1) {
      var k := WordAt(g, i, 1);
      WordsAll(g, i);
      AtLeast(words, k);
    }
  }

  /** There are not more words than the lists have room for. */
  lemma WordsAll(g: Input, i: nat)
    requires NoPairs(g.s) && i < |g.s|
    ensures g.Words(i) == g.dict.Words(g.s, i, i, 0, 20) && LengthsAscend(g.Words(i))
  {
    hide Decode, Dictionary.Words, Dictionary.FirstWords, LengthsAscend;
    var all := g.dict.Words(g.s, i, i, 0, 20);
    assert Boundary(g.s, i);
    WordsAscend(g.dict, g.s, i, i, 0, 20);
    FirstWordsShortest(g.dict, g.s, i, 20, |g.s|);
    if all != [] {
      AtLeast(all, |all| - 1);
    }
  }

  lemma WordIs(g: Input, i: nat, k: nat)
    requires NoPairs(g.s) && i < |g.s| && k < |g.Words(i)|
    ensures var w := g.Words(i)[k];
      && 0 < w.cuLength <= 20 && i + w.cuLength <= |g.s| && g.dict.IsWord(g.s, i, i + w.cuLength)
      && w.value == g.dict.ValueOf(g.s, i, i + w.cuLength)
  {
    hide Decode, Dictionary.Words, Dictionary.FirstWords, Dictionary.IsWord, Dictionary.ValueOf;
    WordsAll(g, i);
    assert Boundary(g.s, i);
    WordsSound(g.dict, g.s, i, i, 0, 20, k);
    var end := i + g.Words(i)[k].cuLength;
    assert !PairAt(g.s, end - 2);
  }

  lemma WordAt(g: Input, i: nat, length: nat) returns (k: nat)
    requires NoPairs(g.s) && i < |g.s| && 0 < length <= 20 && i + length <= |g.s|
    requires g.dict.IsWord(g.s, i, i + length)
    ensures k < |g.Words(i)| && g.Words(i)[k].cuLength == length
    ensures g.Words(i)[k].value == g.dict.ValueOf(g.s, i, i + length)
  {
    hide Decode, Dictionary.Words, Dictionary.FirstWords, Dictionary.IsWord, Dictionary.ValueOf;
    WordsAll(g, i);
    assert Boundary(g.s, i) && Boundary(g.s, i + length) && !PairAt(g.s, i + length - 2);
    WordsComplete(g.dict, g.s, i, i, 0, 20, i + length);
    var all := g.dict.Words(g.s, i, i, 0, 20);
    var w :| w in all && w.cuLength == length;
    k :| 0 <= k < |all| && all[k] == w;
    WordIs(g, i, k);
  }

  /** Text without Katakana and Hangul, of which only the whole is a dictionary word, with the value v. */
  ghost predicate OnlyWhole(g: Input, v: nat) {
    && NoPairs(g.s) && NoSyllables(g.s) && (forall k :: 0 <= k < |g.s| ==> !InKatakana(g.s[k]))
    && 2 <= |g.s| && v < 0x1_0000_0000
    && (forall a, b :: 0 <= a < b <= |g.s| && g.dict.IsWord(g.s, a, b) ==> a == 0 && b == |g.s|)
    && g.dict.IsWord(g.s, 0, |g.s|) && g.dict.ValueOf(g.s, 0, |g.s|) == v
  }

  lemma WholeSteps(g: Input, v: nat, i: nat, t: Step)
    requires OnlyWhole(g, v) && i < |g.s|
    ensures t in g.From(i) <==> t == Step(1, 255) || (i == 0 && |g.s| <= 20 && t == Step(|g.s|, v))
  {
    hide Dictionary.IsWord, Dictionary.ValueOf, Input.From;
    WordsAt(g, i, t);
    assert !g.dict.IsWord(g.s, i, i + 1);
    assert !InKatakana(g.s[i]) && !KatakanaRun(g.s, i, i + t.length);
    assert 0 < t.length && i + t.length <= |g.s| && g.dict.IsWord(g.s, i, i + t.length) ==> i == 0 && t.length == |g.s|;
  }

  /** Behind the first character there are only single characters. */
  lemma {:induction false} SinglesOnly(g: Input, v: nat, i: nat, cut: seq<Step>)
    requires OnlyWhole(g, v) && 0 < i <= |g.s| && g.IsCut(i, cut)
    ensures Length(cut) == |cut| && Cost(cut) == 255 * |cut| && forall k :: 0 <= k < |cut| ==> cut[k] == Step(1, 255)
    decreases |cut|
  {
    hide OnlyWhole, Input.From;
    if cut != [] {
      WholeSteps(g, v, i, cut[0]);
      SinglesOnly(g, v, i + 1, cut[1..]);
      assert forall k :: 1 <= k < |cut| ==> cut[k] == cut[1..][k - 1];
    }
  }

  /** The whole text is cut off in one piece, or into single characters. */
  lemma WholeOrSingles(g: Input, v: nat, cut: seq<Step>)
    requires OnlyWhole(g, v) && g.IsCut(0, cut) && Length(cut) == |g.s|
    ensures || (cut == [Step(|g.s|, v)] && |g.s| <= 20)
            || (Cost(cut) == 255 * |g.s| && |cut| == |g.s| && forall k :: 0 <= k < |cut| ==> cut[k] == Step(1, 255))
  {
    hide Input.From;
    WholeSteps(g, v, 0, cut[0]);
    SinglesOnly(g, v, cut[0].length, cut[1..]);
    assert forall k :: 1 <= k < |cut| ==> cut[k] == cut[1..][k - 1];
    assert cut[0].length == |g.s| ==> cut[1..] == [] && cut == [cut[0]];
  }

  /** A word of up to 20 characters is kept together if its value is below 255 for each character; if it is above, it is not. */
  lemma WholeWord(g: Input, v: nat, cut: seq<Step>)
    requires OnlyWhole(g, v)
    ensures |g.s| <= 20 && v < 255 * |g.s| ==> (Cheapest(g, cut) <==> cut == [Step(|g.s|, v)])
    ensures |g.s| > 20 || v > 255 * |g.s| ==> Cheapest(g, cut) ==>
              |cut| == |g.s| && forall k :: 0 <= k < |cut| ==> cut[k] == Step(1, 255)
  {
    hide Input.From, OnlyWhole;
    var whole, singles := [Step(|g.s|, v)], seq(|g.s|, k => Step(1, 255));
    TextLength(g, v);
    WholeCut(g, v);
    SinglesCut(g, v, 0, singles);
    forall other | g.IsCut(0, other) && Length(other) == |g.s|
      ensures (|g.s| <= 20 && other == whole) || (Cost(other) == 255 * |g.s| && |other| == |g.s|
                && forall k :: 0 <= k < |other| ==> other[k] == Step(1, 255))
    {
      WholeOrSingles(g, v, other);
    }
  }

  lemma WholeCut(g: Input, v: nat)
    requires OnlyWhole(g, v)
    ensures var whole := [Step(|g.s|, v)];
      Length(whole) == |g.s| && Cost(whole) == v && (|g.s| <= 20 ==> g.IsCut(0, whole))
  {
    hide Input.From, OnlyWhole;
    TextLength(g, v);
    WholeSteps(g, v, 0, Step(|g.s|, v));
    assert [Step(|g.s|, v)][1..] == [];
  }

  lemma TextLength(g: Input, v: nat)
    requires OnlyWhole(g, v)
    ensures |g.s| >= 2
  {
  }

  lemma {:induction false} SinglesCut(g: Input, v: nat, i: nat, cut: seq<Step>)
    requires OnlyWhole(g, v) && i + |cut| == |g.s| && forall k :: 0 <= k < |cut| ==> cut[k] == Step(1, 255)
    ensures g.IsCut(i, cut) && Length(cut) == |cut| && Cost(cut) == 255 * |cut|
    decreases |cut|
  {
    hide OnlyWhole, Input.From;
    if cut != [] {
      WholeSteps(g, v, i, cut[0]);
      SinglesCut(g, v, i + 1, cut[1..]);
    }
  }
}
