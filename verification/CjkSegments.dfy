/** Chinese and Japanese text: the ways to cut it into words, and what they cost. */
module CjkSegments {
  import opened Basics
  import opened Utf16
  import opened DictionaryMatcher

  const kuint32max := 0xffff_ffff
  const kMaxKatakanaLength := 8
  const kMaxKatakanaGroupLength := 20
  const maxSnlp := 255
  const maxWordSize := 20

  predicate IsKatakana(c: Unit) {
    (0x30a1 <= c <= 0x30fe && c != 0x30fb) || 0xff66 <= c <= 0xff9f
  }

  predicate IsHangul(c: Unit) {
    0xac00 <= c <= 0xd7a3
  }

  function KatakanaCost(length: nat): (cost: nat)
    ensures cost <= 8192
  {
    if length > kMaxKatakanaLength then 8192 else [8192, 984, 408, 240, 204, 252, 300, 372, 480][length]
  }

  /** The end of the Katakana run which goes on at j, when there are already length characters. */
  function KatakanaEnd(s: seq<Unit>, j: nat, length: nat): (end: nat)
    requires j <= |s|
    ensures j <= end <= |s|
    decreases |s| - j
  {
    if j < |s| && length < kMaxKatakanaGroupLength && IsKatakana(s[j]) then KatakanaEnd(s, j + 1, length + 1) else j
  }

  /** The run of Katakana characters at i ends at end: at another character, at the end of the text, or when it is 20 long. */
  ghost predicate IsRun(s: seq<Unit>, i: nat, end: nat) {
    && i < end <= |s| && end - i <= kMaxKatakanaGroupLength
    && (forall k :: i < k < end ==> IsKatakana(s[k]))
    && (end - i == kMaxKatakanaGroupLength || end == |s| || !IsKatakana(s[end]))
  }

  lemma {:induction false} KatakanaEndStops(s: seq<Unit>, j: nat, length: nat)
    requires j <= |s| && length <= kMaxKatakanaGroupLength
    ensures var end := KatakanaEnd(s, j, length);
      && length + (end - j) <= kMaxKatakanaGroupLength
      && (forall k :: j <= k < end ==> IsKatakana(s[k]))
      && (length + (end - j) == kMaxKatakanaGroupLength || end == |s| || !IsKatakana(s[end]))
    decreases |s| - j
  {
    if j < |s| && length < kMaxKatakanaGroupLength && IsKatakana(s[j]) {
      KatakanaEndStops(s, j + 1, length + 1);
    }
  }

  /** The run ends only there. */
  lemma RunEnd(s: seq<Unit>, i: nat, end: nat)
    requires i < |s|
    ensures IsRun(s, i, end) <==> end == KatakanaEnd(s, i + 1, 1)
  {
    KatakanaEndStops(s, i + 1, 1);
  }

  /** One possible word: its length and its cost. */
  datatype Step = Step(length: nat, cost: nat)

  function Steps(words: seq<Candidate>): (r: seq<Step>)
    ensures |r| == |words| && forall i :: 0 <= i < |r| ==> r[i] == Step(words[i].cuLength, Unsigned(words[i].value))
  {
    seq(|words|, i requires 0 <= i < |words| => Step(words[i].cuLength, Unsigned(words[i].value)))
  }

  /** Some text and a dictionary. */
  datatype Input = Input(s: seq<Unit>, dict: Dictionary)
  {
    /** The dictionary words at i. */
    ghost function Words(i: nat): (r: seq<Candidate>)
      requires i <= |s|
      ensures forall k :: 0 <= k < |r| ==> 0 < r[k].cuLength <= |s| - i
    {
      dict.FirstWords(s, i, maxWordSize, |s|)
    }

    /** Without a one-character word, one character is a word of the highest cost, except for Hangul. */
    ghost predicate NeedsFallback(i: nat)
      requires i < |s|
    {
      (Words(i) == [] || Words(i)[0].cuLength != 1) && !IsHangul(s[i])
    }

    ghost function WordSteps(i: nat): (r: seq<Step>)
      requires i < |s|
      ensures forall t :: t in r ==> 0 < t.length <= |s| - i
    {
      Steps(Words(i)) + if NeedsFallback(i) then [Step(1, maxSnlp)] else []
    }

    /** A run of less than 20 Katakana characters is a word, if it does not go on from the position before. */
    ghost function KatakanaSteps(i: nat): (r: seq<Step>)
      requires i < |s|
      ensures forall t :: t in r ==> 0 < t.length <= |s| - i
      decreases i, 1
    {
      var length := KatakanaEnd(s, i + 1, 1) - i;
      if IsKatakana(s[i]) && !AfterKatakana(i) && length < kMaxKatakanaGroupLength then [Step(length, KatakanaCost(length))]
      else []
    }

    /** All possible words at i. */
    ghost function From(i: nat): (r: seq<Step>)
      requires i < |s|
      ensures forall t :: t in r ==> 0 < t.length <= |s| - i
      decreases i, 2
    {
      WordSteps(i) + KatakanaSteps(i)
    }

    /** Is the last position before i which can be reached a Katakana character? */
    ghost predicate AfterKatakana(i: nat)
      requires i <= |s|
      decreases i, 0
    {
      i > 0 && if Reached(i - 1) then IsKatakana(s[i - 1]) else AfterKatakana(i - 1)
    }

    /** Can the first i characters be cut into words? */
    ghost predicate Reached(i: nat)
      requires i <= |s|
      decreases i, 3
    {
      i == 0 || exists j: nat :: j < i && Leads(j, i)
    }

    /** Can the first j characters be cut into words, with a word from there to i? */
    ghost predicate Leads(j: nat, i: nat)
      requires j < i <= |s|
      decreases j, 4
    {
      Reached(j) && exists t :: t in From(j) && j + t.length == i
    }

    /** Do the words cut the text from i on? */
    ghost predicate IsCut(i: nat, cut: seq<Step>)
      requires i <= |s|
      decreases |cut|
    {
      cut == [] || (i < |s| && cut[0] in From(i) && IsCut(i + cut[0].length, cut[1..]))
    }
  }

  /** The length of some words. */
  function Length(cut: seq<Step>): nat {
    if cut == [] then 0 else cut[0].length + Length(cut[1..])
  }

  /** The total cost of some words. */
  function Cost(cut: seq<Step>): nat {
    if cut == [] then 0 else cut[0].cost + Cost(cut[1..])
  }

  /** Are all totals below the value which stands for no cut? */
  ghost predicate Fits(g: Input) {
    forall cut :: g.IsCut(0, cut) ==> Cost(cut) < kuint32max
  }

  /** Are all costs at most bound? */
  ghost predicate CostsUpTo(g: Input, bound: nat) {
    bound >= 8192 && forall k, w :: 0 <= k < |g.s| && w in g.Words(k) ==> Unsigned(w.value) <= bound
  }

  /** Costs up to a bound cannot overflow in text which is short enough. */
  lemma {:induction false} BoundedCut(g: Input, bound: nat, i: nat, cut: seq<Step>)
    requires i <= |g.s| && g.IsCut(i, cut) && CostsUpTo(g, bound)
    ensures Length(cut) <= |g.s| - i && Cost(cut) <= Length(cut) * bound
    decreases |cut|
  {
    hide Input.From, CostsUpTo;
    if cut != [] {
      var t := cut[0];
      BoundedStep(g, bound, i, t);
      BoundedCut(g, bound, i + t.length, cut[1..]);
      Multiply(1, t.length, bound);
      Distribute(t.length, Length(cut[1..]), bound);
    }
  }

  lemma Distribute(a: nat, b: nat, c: nat)
    ensures (a + b) * c == a * c + b * c
  {
  }

  lemma Multiply(a: nat, b: nat, c: nat)
    requires a <= b
    ensures a * c <= b * c
  {
    assert b * c == a * c + (b - a) * c;
  }

  lemma BoundedStep(g: Input, bound: nat, i: nat, t: Step)
    requires i < |g.s| && t in g.From(i) && CostsUpTo(g, bound)
    ensures t.cost <= bound
  {
    if t in Steps(g.Words(i)) {
      var k :| 0 <= k < |g.Words(i)| && t == Step(g.Words(i)[k].cuLength, Unsigned(g.Words(i)[k].value));
      assert g.Words(i)[k] in g.Words(i);
    }
  }

  /** With all values of the dictionary from 0 to a bound, and text which is short enough, no total overflows. */
  lemma ValuesFit(g: Input, bound: nat)
    requires bound >= 8192 && (forall p :: p in g.dict.words ==> 0 <= p.value <= bound)
    requires |g.s| * bound < kuint32max && forall i :: 0 <= i <= |g.s| ==> Boundary(g.s, i)
    ensures Fits(g)
  {
    hide Decode, Dictionary.Words, Dictionary.PrefixLength, Dictionary.FirstWords, Boundary;
    forall k, w | 0 <= k < |g.s| && w in g.Words(k)
      ensures Unsigned(w.value) <= bound
    {
      Multiply(1, |g.s|, bound);
      WordValue(g, k, w, bound);
    }
    BoundedFits(g, bound);
  }

  lemma WordValue(g: Input, k: nat, w: Candidate, bound: nat)
    requires (forall p :: p in g.dict.words ==> 0 <= p.value <= bound) && k < |g.s| && w in g.Words(k)
    requires bound < 0x1_0000_0000 && Boundary(g.s, k)
    ensures Unsigned(w.value) <= bound
  {
    hide Decode, Dictionary.Words;
    var all := g.dict.Words(g.s, k, k, 0, maxWordSize);
    var i :| 0 <= i < |all| && all[i] == w;
    WordsSound(g.dict, g.s, k, k, 0, maxWordSize, i);
  }

  lemma BoundedFits(g: Input, bound: nat)
    requires CostsUpTo(g, bound) && |g.s| * bound < kuint32max
    ensures Fits(g)
  {
    forall cut | g.IsCut(0, cut)
      ensures Cost(cut) < kuint32max
    {
      BoundedCut(g, bound, 0, cut);
      Multiply(Length(cut), |g.s|, bound);
    }
  }

  /** Without Hangul, every position can be reached. */
  lemma {:induction false} AllReached(g: Input, i: nat)
    requires i <= |g.s| && forall k :: 0 <= k < |g.s| ==> !IsHangul(g.s[k])
    ensures g.Reached(i)
  {
    if i > 0 {
      AllReached(g, i - 1);
      var words := g.Words(i - 1);
      assert g.NeedsFallback(i - 1) ==> Step(1, maxSnlp) in g.WordSteps(i - 1);
      assert !g.NeedsFallback(i - 1) ==> Steps(words)[0].length == 1 && Steps(words)[0] in g.WordSteps(i - 1);
      var t :| t in g.WordSteps(i - 1) && t.length == 1;
      assert t in g.From(i - 1);
      assert g.Leads(i - 1, i);
    }
  }

  ghost predicate NoHangul(s: seq<Unit>) {
    forall k :: 0 <= k < |s| ==> !IsHangul(s[k])
  }

  /** Without Hangul, a run of Katakana is a word exactly where a Katakana character follows another character or none. */
  lemma RunStarts(g: Input, i: nat)
    requires i <= |g.s| && NoHangul(g.s)
    ensures g.AfterKatakana(i) <==> i > 0 && IsKatakana(g.s[i - 1])
    ensures i < |g.s| ==>
      forall t :: t in g.KatakanaSteps(i) <==>
        && IsKatakana(g.s[i]) && (i == 0 || !IsKatakana(g.s[i - 1]))
        && IsRun(g.s, i, i + t.length) && t.length < kMaxKatakanaGroupLength && t.cost == KatakanaCost(t.length)
  {
    hide Input.Reached, IsRun;
    if i > 0 {
      AllReached(g, i - 1);
    }
    if i < |g.s| {
      forall t
        ensures t in g.KatakanaSteps(i) <==>
          && IsKatakana(g.s[i]) && (i == 0 || !IsKatakana(g.s[i - 1]))
          && IsRun(g.s, i, i + t.length) && t.length < kMaxKatakanaGroupLength && t.cost == KatakanaCost(t.length)
      {
        RunEnd(g.s, i, i + t.length);
      }
    }
  }
}
