/** The Chinese and Japanese break engine: a shortest-path computation with back pointers. */
module CjkEngine {
  import opened Basics
  import opened Utf16
  import opened UText
  import opened DictionaryMatcher
  import opened CjkSegments
  import opened BreakEngines

  /** The cost which has been found for k comes from a word at prev[k], which ends at k. */
  ghost predicate Linked(g: Input, best: seq<int>, prev: seq<int>, k: int)
    requires |best| == |prev| == |g.s| + 1 && 0 < k <= |g.s|
  {
    && 0 <= prev[k] < k && 0 <= best[prev[k]] < kuint32max && best[prev[k]] <= best[k]
    && Step(k - prev[k], best[k] - best[prev[k]]) in g.From(prev[k])
  }

  /** All costs which have been found come from words which start at i or before. */
  ghost predicate AllLinked(g: Input, best: seq<int>, prev: seq<int>, i: int) {
    && |best| == |prev| == |g.s| + 1 && best[0] == 0
    && (forall k :: 0 <= k <= |g.s| ==> 0 <= best[k] <= kuint32max)
    && forall k :: 0 < k <= |g.s| && best[k] != kuint32max ==> Linked(g, best, prev, k) && prev[k] <= i
  }

  /** The first m words at j have been taken into account. */
  ghost predicate Relaxed(g: Input, best: seq<int>, j: nat, m: nat)
    requires |best| == |g.s| + 1 && j < |g.s|
  {
    && m <= |g.From(j)|
    && (best[j] != kuint32max ==>
          forall k :: 0 <= k < m ==> best[j + g.From(j)[k].length] <= best[j] + g.From(j)[k].cost)
  }

  ghost predicate RelaxedBefore(g: Input, best: seq<int>, i: nat)
    requires |best| == |g.s| + 1 && i <= |g.s|
  {
    forall j: nat :: j < i ==> Relaxed(g, best, j, |g.From(j)|)
  }

  /** Where the words of a cut end. */
  function Ends(cut: seq<Step>, from: nat): seq<nat> {
    if cut == [] then [] else [from + cut[0].length] + Ends(cut[1..], from + cut[0].length)
  }

  /** The positions on the way back from k to the start, in ascending order. */
  function Walk(prev: seq<int>, k: int): seq<int>
    decreases k
  {
    if 0 < k < |prev| && 0 <= prev[k] < k then Walk(prev, prev[k]) + [k] else []
  }

  lemma {:induction false} CutAppend(g: Input, i: nat, cut: seq<Step>, t: Step)
    requires i <= |g.s| && g.IsCut(i, cut)
    requires i + Length(cut) < |g.s| && t in g.From(i + Length(cut))
    ensures g.IsCut(i, cut + [t]) && Length(cut + [t]) == Length(cut) + t.length
    ensures Cost(cut + [t]) == Cost(cut) + t.cost
    ensures Ends(cut + [t], i) == Ends(cut, i) + [i + Length(cut) + t.length]
    decreases |cut|
  {
    hide Input.From;
    if cut == [] {
      assert cut + [t] == [t];
      assert [t][1..] == [];
    } else {
      CutAppend(g, i + cut[0].length, cut[1..], t);
      assert (cut + [t])[1..] == cut[1..] + [t];
    }
  }

  /** What has been found for k is a cut of the first k characters, at the positions on the way back. */
  lemma {:induction false} FoundCut(g: Input, best: seq<int>, prev: seq<int>, i: int, k: nat) returns (cut: seq<Step>)
    requires AllLinked(g, best, prev, i) && k <= |g.s| && best[k] != kuint32max
    ensures g.IsCut(0, cut) && Length(cut) == k && Cost(cut) == best[k] && Ends(cut, 0) == Walk(prev, k)
    decreases k
  {
    hide Input.From;
    cut := [];
    if k > 0 {
      assert Linked(g, best, prev, k);
      var j := prev[k];
      cut := FoundCut(g, best, prev, i, j);
      CutAppend(g, 0, cut, Step(k - j, best[k] - best[j]));
      cut := cut + [Step(k - j, best[k] - best[j])];
    }
  }

  lemma RelaxedBy(g: Input, best: seq<int>, i: nat, j: nat, t: Step)
    requires |best| == |g.s| + 1 && j < i <= |g.s| && RelaxedBefore(g, best, i) && best[j] != kuint32max && t in g.From(j)
    ensures best[j + t.length] <= best[j] + t.cost
  {
    hide Input.From;
    assert Relaxed(g, best, j, |g.From(j)|);
    var k :| 0 <= k < |g.From(j)| && g.From(j)[k] == t;
    assert best[j + g.From(j)[k].length] <= best[j] + g.From(j)[k].cost;
  }

  lemma ReachedFrom(g: Input, k: nat) returns (j: nat, t: Step)
    requires 0 < k <= |g.s| && g.Reached(k)
    ensures j < k && g.Reached(j) && t in g.From(j) && j + t.length == k
  {
    hide Input.From;
    j :| j < k && g.Leads(j, k);
    t :| t in g.From(j) && j + t.length == k;
  }

  lemma ReachedBy(g: Input, j: nat, k: nat, t: Step)
    requires j < k <= |g.s| && g.Reached(j) && t in g.From(j) && j + t.length == k
    ensures g.Reached(k)
  {
    assert g.Leads(j, k);
  }

  /** No cut from i on is cheaper than what has been found. */
  lemma {:induction false} NoCheaperCut(g: Input, best: seq<int>, i: nat, cut: seq<Step>)
    requires |best| == |g.s| + 1 && RelaxedBefore(g, best, |g.s|) && i <= |g.s| && g.IsCut(i, cut)
    requires 0 <= best[i] && best[i] + Cost(cut) < kuint32max && forall k :: 0 <= k <= |g.s| ==> 0 <= best[k]
    ensures i + Length(cut) <= |g.s| && best[i + Length(cut)] <= best[i] + Cost(cut)
    decreases |cut|
  {
    hide Input.From;
    if cut != [] {
      RelaxedBy(g, best, |g.s|, i, cut[0]);
      NoCheaperCut(g, best, i + cut[0].length, cut[1..]);
    }
  }

  /** A word after what has been found does not overflow. */
  lemma NoOverflow(g: Input, best: seq<int>, prev: seq<int>, i: int, k: nat, t: Step)
    requires Fits(g) && AllLinked(g, best, prev, i) && k < |g.s| && best[k] != kuint32max && t in g.From(k)
    ensures best[k] + t.cost < kuint32max
  {
    hide Input.From;
    var cut := FoundCut(g, best, prev, i, k);
    CutAppend(g, 0, cut, t);
  }

  /** A cost has been found exactly for the positions which can be reached. */
  lemma {:induction false} FoundReached(g: Input, best: seq<int>, prev: seq<int>, i: nat, k: nat)
    requires Fits(g) && AllLinked(g, best, prev, i) && k <= |g.s| && RelaxedBefore(g, best, k)
    ensures best[k] != kuint32max <==> g.Reached(k)
    decreases k
  {
    hide Input.From, Input.Reached, Linked, Relaxed, Fits;
    if k == 0 {
      StartReached(g);
    } else {
      if best[k] != kuint32max {
        var j := LinkedFrom(g, best, prev, i, k);
        FoundReached(g, best, prev, i, j);
        ReachedBy(g, j, k, Step(k - j, best[k] - best[j]));
      }
      if g.Reached(k) {
        var j, t := ReachedFrom(g, k);
        FoundReached(g, best, prev, i, j);
        NoOverflow(g, best, prev, i, j, t);
        RelaxedBy(g, best, k, j, t);
      }
    }
  }

  lemma StartReached(g: Input)
    ensures g.Reached(0)
  {
  }

  lemma LinkedFrom(g: Input, best: seq<int>, prev: seq<int>, i: int, k: nat) returns (j: nat)
    requires AllLinked(g, best, prev, i) && 0 < k <= |g.s| && best[k] != kuint32max
    ensures j < k && j == prev[k] && 0 <= best[j] < kuint32max && best[j] <= best[k]
    ensures Step(k - j, best[k] - best[j]) in g.From(j)
  {
    hide Input.From;
    assert Linked(g, best, prev, k);
    j := prev[k];
  }

  /** The costs and back pointers after a word at i of cost t.cost. */
  ghost predicate OneMore(best: seq<int>, prev: seq<int>, i: nat, t: Step, best1: seq<int>, prev1: seq<int>)
    requires i + t.length < |best| == |prev| && i < |best|
  {
    var k, cost := i + t.length, best[i] + t.cost;
    if cost < best[k] then best1 == best[k := cost] && prev1 == prev[k := i] else best1 == best && prev1 == prev
  }

  lemma NewLink(g: Input, best: seq<int>, i: nat, t: Step, best1: seq<int>, prev1: seq<int>)
    requires |best| == |best1| == |prev1| == |g.s| + 1 && i < |g.s| && 0 <= best[i] < kuint32max
    requires t in g.From(i) && best1 == best[i + t.length := best[i] + t.cost] && prev1[i + t.length] == i
    ensures Linked(g, best1, prev1, i + t.length)
  {
    hide Input.From;
    var k := i + t.length;
    assert Step(k - i, best1[k] - best1[i]) == t;
  }

  lemma OldLink(g: Input, best: seq<int>, prev: seq<int>, i: nat, k: nat, best1: seq<int>, prev1: seq<int>, changed: nat)
    requires |best| == |best1| == |prev| == |prev1| == |g.s| + 1 && 0 < k <= |g.s| && k != changed && i < changed
    requires Linked(g, best, prev, k) && prev[k] <= i
    requires forall j :: 0 <= j <= |g.s| && j != changed ==> best1[j] == best[j] && prev1[j] == prev[j]
    ensures Linked(g, best1, prev1, k)
  {
    hide Input.From;
  }

  lemma StayLinked(g: Input, best: seq<int>, prev: seq<int>, i: nat, t: Step, best1: seq<int>, prev1: seq<int>)
    requires AllLinked(g, best, prev, i) && i < |g.s| && best[i] != kuint32max
    requires t in g.From(i) && best[i] + t.cost < kuint32max && OneMore(best, prev, i, t, best1, prev1)
    ensures AllLinked(g, best1, prev1, i)
  {
    hide Input.From, Linked;
    forall k | 0 < k <= |g.s| && best1[k] != kuint32max
      ensures Linked(g, best1, prev1, k) && prev1[k] <= i
    {
      if k == i + t.length && best[i] + t.cost < best[k] {
        NewLink(g, best, i, t, best1, prev1);
      } else {
        if k == i + t.length {
          assert best1 == best && prev1 == prev;
        } else {
          OldLink(g, best, prev, i, k, best1, prev1, i + t.length);
        }
      }
    }
  }

  lemma StayRelaxed(g: Input, best: seq<int>, best1: seq<int>, i: nat, j: nat, m: nat)
    requires |best| == |best1| == |g.s| + 1 && j <= i < |g.s| && Relaxed(g, best, j, m)
    requires best1[j] == best[j] && forall k :: 0 <= k < |best| ==> best1[k] <= best[k]
    ensures Relaxed(g, best1, j, m)
  {
    hide Input.From;
  }

  lemma NextRelaxed(g: Input, best: seq<int>, prev: seq<int>, i: nat, m: nat, best1: seq<int>, prev1: seq<int>)
    requires |best| == |best1| == |prev| == |g.s| + 1 && i < |g.s| && Relaxed(g, best1, i, m) && m < |g.From(i)|
    requires OneMore(best, prev, i, g.From(i)[m], best1, prev1)
    ensures Relaxed(g, best1, i, m + 1)
  {
    hide Input.From;
  }

  /** Taking one more word into account. */
  lemma RelaxStep(g: Input, best: seq<int>, prev: seq<int>, i: nat, m: nat, best1: seq<int>, prev1: seq<int>)
    requires AllLinked(g, best, prev, i) && i < |g.s| && best[i] != kuint32max && RelaxedBefore(g, best, i)
    requires Relaxed(g, best, i, m) && m < |g.From(i)| && best[i] + g.From(i)[m].cost < kuint32max
    requires OneMore(best, prev, i, g.From(i)[m], best1, prev1)
    ensures AllLinked(g, best1, prev1, i) && RelaxedBefore(g, best1, i) && Relaxed(g, best1, i, m + 1)
    ensures best1[i] == best[i]
  {
    hide Input.From, Linked, Relaxed;
    StayLinked(g, best, prev, i, g.From(i)[m], best1, prev1);
    StayRelaxed(g, best, best1, i, i, m);
    NextRelaxed(g, best, prev, i, m, best1, prev1);
    forall j: nat | j < i
      ensures Relaxed(g, best1, j, |g.From(j)|)
    {
      assert Relaxed(g, best, j, |g.From(j)|);
      StayRelaxed(g, best, best1, i, j, |g.From(j)|);
    }
  }

  /** Text in which every code unit is a code point of its own. */
  ghost predicate NoPairs(s: seq<Unit>) {
    forall i :: 0 <= i < |s| ==> !PairAt(s, i)
  }

  lemma {:induction false} UnitsAreCodePoints(s: seq<Unit>)
    requires NoPairs(s)
    ensures |Decode(s)| == |s|
  {
    if s != [] {
      assert forall i :: 0 <= i < |s| - 1 ==> PairAt(s[1..], i) == PairAt(s, i + 1);
      assert !PairAt(s, 0);
      UnitsAreCodePoints(s[1..]);
    }
  }

  /** Lengths in code points are lengths in code units. */
  lemma SameLengths(g: Input, i: nat, k: nat)
    requires NoPairs(g.s) && i < |g.s| && k < |g.Words(i)|
    ensures g.Words(i)[k].cpLength == g.Words(i)[k].cuLength
  {
    hide Decode, Dictionary.Words, Dictionary.IsWord, Dictionary.ValueOf;
    var all := g.dict.Words(g.s, i, i, 0, maxWordSize);
    assert g.Words(i)[k] == all[k];
    assert Boundary(g.s, i);
    WordsSound(g.dict, g.s, i, i, 0, maxWordSize, k);
    var end := i + all[k].cuLength;
    assert forall j :: 0 <= j < end - i ==> PairAt(g.s[i..end], j) ==> PairAt(g.s, i + j);
    UnitsAreCodePoints(g.s[i..end]);
  }

  /** There is room for one more word in lists of |s| words when the fallback is needed. */
  lemma FallbackFits(g: Input, i: nat)
    requires NoPairs(g.s) && i < |g.s| && g.NeedsFallback(i)
    ensures |g.Words(i)| < |g.s|
  {
    var w := g.Words(i);
    if w != [] {
      assert Boundary(g.s, i);
      FirstWordsShortest(g.dict, g.s, i, maxWordSize, |g.s|);
      AtLeast(w, |w| - 1);
    }
  }

  lemma NextStep(g: Input, i: nat, j: nat)
    requires i < |g.s| && j < |g.WordSteps(i)|
    ensures j < |g.From(i)| && g.From(i)[j] == g.WordSteps(i)[j]
    ensures g.From(i)[j] in g.From(i) && 0 < g.From(i)[j].length <= |g.s| - i
  {
  }

  lemma KatakanaStep(g: Input, i: nat, length: nat)
    requires i < |g.s| && length == KatakanaEnd(g.s, i + 1, 1) - i
    ensures |g.From(i)| == |g.WordSteps(i)| + |g.KatakanaSteps(i)|
    ensures if IsKatakana(g.s[i]) && !g.AfterKatakana(i) && length < kMaxKatakanaGroupLength then
              && |g.From(i)| == |g.WordSteps(i)| + 1
              && g.From(i)[|g.WordSteps(i)|] == Step(length, KatakanaCost(length))
              && g.From(i)[|g.WordSteps(i)|] in g.From(i)
            else |g.From(i)| == |g.WordSteps(i)|
  {
  }

  lemma NextKatakana(g: Input, i: nat)
    requires i < |g.s|
    ensures g.AfterKatakana(i + 1) == if g.Reached(i) then IsKatakana(g.s[i]) else g.AfterKatakana(i)
  {
  }

  lemma Untouched(g: Input, best: seq<int>, i: nat)
    requires |best| == |g.s| + 1 && i < |g.s|
    ensures Relaxed(g, best, i, 0) && (best[i] == kuint32max ==> Relaxed(g, best, i, |g.From(i)|))
  {
  }

  lemma RelaxedNext(g: Input, best: seq<int>, i: nat)
    requires |best| == |g.s| + 1 && i < |g.s| && RelaxedBefore(g, best, i) && Relaxed(g, best, i, |g.From(i)|)
    ensures RelaxedBefore(g, best, i + 1)
  {
  }

  class CjkBreakEngine {
    const dictionary: BytesDictionaryMatcher

    ghost predicate Valid() {
      dictionary.Valid()
    }

    constructor (dict: BytesDictionaryMatcher)
      requires dict.Valid()
      ensures Valid() && dictionary == dict
    {
      dictionary := dict;
    }

    ghost function InputOf(s: seq<Unit>): Input {
      Input(s, dictionary.Dict())
    }

    ghost predicate State(g: Input, bestSnlp: array<int>, prev: array<int>, i: nat, m: nat)
      reads bestSnlp, prev
    {
      && bestSnlp != prev && bestSnlp.Length == prev.Length == |g.s| + 1 && i < |g.s|
      && AllLinked(g, bestSnlp[..], prev[..], i) && RelaxedBefore(g, bestSnlp[..], i) && Relaxed(g, bestSnlp[..], i, m)
    }

    /** Takes one word into account, with 32-bit unsigned arithmetic. */
    method Relax(ghost g: Input, bestSnlp: array<int>, prev: array<int>, i: nat, length: nat, cost: nat, ghost m: nat)
      requires Fits(g) && State(g, bestSnlp, prev, i, m) && bestSnlp[i] != kuint32max
      requires m < |g.From(i)| && g.From(i)[m] == Step(length, cost) && 0 < length <= |g.s| - i
      modifies bestSnlp, prev
      ensures State(g, bestSnlp, prev, i, m + 1) && bestSnlp[i] == old(bestSnlp[i])
    {
      hide Input.From, AllLinked, Relaxed, RelaxedBefore, Fits;
      ghost var best0, prev0 := bestSnlp[..], prev[..];
      NoOverflow(g, best0, prev0, i, i, Step(length, cost));
      CostRange(g, best0, prev0, i, i);
      var newSnlp := (bestSnlp[i] + cost) % 0x1_0000_0000;
      if newSnlp < bestSnlp[i + length] {
        bestSnlp[i + length] := newSnlp;
        prev[i + length] := i;
      }
      assert OneMore(best0, prev0, i, Step(length, cost), bestSnlp[..], prev[..]);
      RelaxStep(g, best0, prev0, i, m, bestSnlp[..], prev[..]);
    }

    /** The length of the Katakana run at i, up to the largest length of a group. */
    method KatakanaRun(s: seq<Unit>, i: nat) returns (katakanaRunLength: nat)
      requires i < |s|
      ensures katakanaRunLength == KatakanaEnd(s, i + 1, 1) - i
      ensures IsRun(s, i, i + katakanaRunLength)
    {
      katakanaRunLength := 1;
      var j := i + 1;
      while j < |s| && katakanaRunLength < kMaxKatakanaGroupLength && IsKatakana(s[j])
        invariant j <= |s| && katakanaRunLength == j - i
        invariant KatakanaEnd(s, j, katakanaRunLength) == KatakanaEnd(s, i + 1, 1)
      {
        j := j + 1;
        katakanaRunLength := katakanaRunLength + 1;
      }
      RunEnd(s, i, j);
    }

    /** The dictionary words at i, and one character of the highest cost if it is needed. */
    method WordsAt(fu: UText, s: seq<Unit>, i: nat) returns (lengths: seq<nat>, values: seq<int>)
      requires Valid() && fu.Valid() && fu.s == s && NoPairs(s) && i < |s|
      modifies fu`pos
      ensures fu.Valid() && |lengths| == |values| == |InputOf(s).WordSteps(i)| <= |s|
      ensures forall j :: 0 <= j < |lengths| ==> InputOf(s).WordSteps(i)[j] == Step(lengths[j], Unsigned(values[j]))
    {
      hide Dictionary.Words, Dictionary.PrefixLength, Take, BytesDictionaryMatcher.Valid;
      ghost var g := InputOf(s);
      fu.SetNativeIndex(i);
      var words, prefix := dictionary.Matches(fu, maxWordSize, |s|);
      assert words == g.Words(i);
      forall k | 0 <= k < |words|
        ensures words[k].cpLength == words[k].cuLength
      {
        SameLengths(g, i, k);
      }
      lengths := seq(|words|, k requires 0 <= k < |words| => words[k].cpLength);
      values := seq(|words|, k requires 0 <= k < |words| => words[k].value);
      if (|words| == 0 || lengths[0] != 1) && !IsHangul(s[i]) {
        FallbackFits(g, i);
        lengths, values := lengths + [1], values + [maxSnlp];
      }
    }

    /** Takes all words at i into account. */
    method Visit(fu: UText, s: seq<Unit>, bestSnlp: array<int>, prev: array<int>, i: nat, isPrevKatakana: bool,
                 ghost g: Input)
      returns (isKatakana: bool)
      requires Valid() && fu.Valid() && fu.s == s && NoPairs(s) && g == InputOf(s) && Fits(g)
      requires State(g, bestSnlp, prev, i, 0) && bestSnlp[i] != kuint32max && isPrevKatakana == g.AfterKatakana(i)
      modifies fu`pos, bestSnlp, prev
      ensures fu.Valid() && State(g, bestSnlp, prev, i, |g.From(i)|)
      ensures isKatakana == IsKatakana(s[i])
    {
      hide Input.From, Input.WordSteps, Input.AfterKatakana, Input.KatakanaSteps, AllLinked, Relaxed, RelaxedBefore, Fits, NoPairs, BytesDictionaryMatcher.Valid, KatakanaCost;
      var lengths, values := WordsAt(fu, s, i);
      var j := 0;
      while j < |lengths|
        invariant j <= |lengths| && fu.Valid() && State(g, bestSnlp, prev, i, j) && bestSnlp[i] != kuint32max
        modifies bestSnlp, prev
      {
        NextStep(g, i, j);
        Relax(g, bestSnlp, prev, i, lengths[j], Unsigned(values[j]), j);
        j := j + 1;
      }
      isKatakana := IsKatakana(s[i]);
      var katakanaRunLength := 1;
      if !isPrevKatakana && isKatakana {
        katakanaRunLength := KatakanaRun(s, i);
        KatakanaStep(g, i, katakanaRunLength);
        if katakanaRunLength < kMaxKatakanaGroupLength {
          Relax(g, bestSnlp, prev, i, katakanaRunLength, KatakanaCost(katakanaRunLength), j);
        }
      } else {
        KatakanaStep(g, i, KatakanaEnd(g.s, i + 1, 1) - i);
      }
    }

    /** The lowest costs of all prefixes, and for each of them where its last word starts. */
    method Segment(s: seq<Unit>) returns (bestSnlp: array<int>, prev: array<int>)
      requires Valid() && NoPairs(s) && Fits(InputOf(s))
      ensures bestSnlp.Length == prev.Length == |s| + 1 && fresh(bestSnlp) && fresh(prev)
      ensures AllLinked(InputOf(s), bestSnlp[..], prev[..], |s|) && RelaxedBefore(InputOf(s), bestSnlp[..], |s|)
    {
      hide Input.From, Input.AfterKatakana, AllLinked, Relaxed, RelaxedBefore, Fits, NoPairs, BytesDictionaryMatcher.Valid, Input.Reached;
      ghost var g := InputOf(s);
      bestSnlp := new int[|s| + 1](k => if k == 0 then 0 else kuint32max);
      prev := new int[|s| + 1](_ => -1);
      var fu: UText := new UText(s);
      var isPrevKatakana := false;
      StartState(g, bestSnlp[..], prev[..]);
      var i := 0;
      while i < |s|
        invariant i <= |s| && fu.Valid() && isPrevKatakana == g.AfterKatakana(i)
        invariant AllLinked(g, bestSnlp[..], prev[..], i) && RelaxedBefore(g, bestSnlp[..], i)
        modifies bestSnlp, prev, fu`pos
      {
        Untouched(g, bestSnlp[..], i);
        FoundReached(g, bestSnlp[..], prev[..], i, i);
        NextKatakana(g, i);
        if bestSnlp[i] != kuint32max {
          isPrevKatakana := Visit(fu, s, bestSnlp, prev, i, isPrevKatakana, g);
        }
        RelaxedNext(g, bestSnlp[..], i);
        LinkedLater(g, bestSnlp[..], prev[..], i);
        i := i + 1;
      }
    }

    /** The tentative boundaries, from the last one to the first one. */
    method WalkBack(bestSnlp: array<int>, prev: array<int>, numCodePts: nat, ghost g: Input) returns (boundary: seq<int>)
      requires numCodePts == |g.s| > 0 && bestSnlp.Length == prev.Length == numCodePts + 1
      requires AllLinked(g, bestSnlp[..], prev[..], numCodePts)
      ensures boundary != []
      ensures Reversed(boundary) == if bestSnlp[numCodePts] == kuint32max then [numCodePts] else Walk(prev[..], numCodePts)
    {
      hide AllLinked;
      boundary := [];
      if bestSnlp[numCodePts] == kuint32max {
        boundary := boundary + [numCodePts];
      } else {
        var i: int := numCodePts;
        while i > 0
          invariant 0 <= i <= numCodePts && bestSnlp[i] != kuint32max && (i < numCodePts ==> boundary != [])
          invariant Walk(prev[..], i) + Reversed(boundary) == Walk(prev[..], numCodePts)
        {
          var j := LinkedFrom(g, bestSnlp[..], prev[..], numCodePts, i);
          PushBoundary(prev[..], i, boundary);
          boundary := boundary + [i];
          i := prev[i];
        }
      }
    }

    /** Pushes the boundaries of a cheapest cut, and returns how many there are. */
    method DivideUpDictionaryRange(inText: UText, rangeStart: nat, rangeEnd: nat, foundBreaks: UStack)
      returns (numBreaks: nat, ghost cut: seq<Step>)
      requires Valid() && rangeEnd <= |inText.s|
      requires rangeStart < rangeEnd ==>
                 NoPairs(inText.s[rangeStart..rangeEnd]) && Fits(InputOf(inText.s[rangeStart..rangeEnd]))
      modifies foundBreaks
      ensures rangeStart >= rangeEnd ==> numBreaks == 0 && foundBreaks.elements == old(foundBreaks.elements)
      ensures rangeStart < rangeEnd ==>
                var g, before := InputOf(inText.s[rangeStart..rangeEnd]), old(foundBreaks.elements);
                && (g.Reached(rangeEnd - rangeStart) ==> Cheapest(g, cut))
                && foundBreaks.elements == before + Shifted(StartBreak(before, rangeStart) + CutEnds(g, cut), rangeStart)
                && numBreaks == |foundBreaks.elements| - |before|
    {
      hide Fits, NoPairs, BytesDictionaryMatcher.Valid, Input.Reached, Reversed, Shifted, Cheapest, CutEnds;
      cut := [];
      if rangeStart >= rangeEnd {
        return 0, [];
      }
      var inString := inText.s[rangeStart..rangeEnd];
      var boundary;
      boundary, cut := CutText(inString);
      ghost var ends := CutEnds(InputOf(inString), cut);
      if foundBreaks.elements == [] || foundBreaks.Peeki() < rangeStart {
        ReversedAppend(boundary, 0);
        boundary := boundary + [0];
      } else {
        assert [] + ends == ends;
      }
      numBreaks := |boundary|;
      PushBoundaries(boundary, rangeStart, foundBreaks);
    }

    /** The same for a dictionary with values up to a bound, and text without Hangul which is short enough for it. */
    method DivideUpBounded(inText: UText, rangeStart: nat, rangeEnd: nat, foundBreaks: UStack, ghost bound: nat)
      returns (numBreaks: nat, ghost cut: seq<Step>)
      requires Valid() && rangeStart < rangeEnd <= |inText.s|
      requires NoPairs(inText.s[rangeStart..rangeEnd]) && NoHangul(inText.s[rangeStart..rangeEnd])
      requires bound >= 8192 && (rangeEnd - rangeStart) * bound < kuint32max
      requires forall p :: p in dictionary.Dict().words ==> 0 <= p.value <= bound
      modifies foundBreaks
      ensures var g, before := InputOf(inText.s[rangeStart..rangeEnd]), old(foundBreaks.elements);
        && Cheapest(g, cut)
        && foundBreaks.elements == before + Shifted(StartBreak(before, rangeStart) + Ends(cut, 0), rangeStart)
        && numBreaks == |foundBreaks.elements| - |before|
    {
      hide Fits, BytesDictionaryMatcher.Valid, BytesDictionaryMatcher.Dict, Input.Reached, Shifted, Cheapest, Ends;
      ghost var g := InputOf(inText.s[rangeStart..rangeEnd]);
      ValuesFit(g, bound);
      AllReached(g, |g.s|);
      numBreaks, cut := DivideUpDictionaryRange(inText, rangeStart, rangeEnd, foundBreaks);
    }

    /** The boundaries of a cheapest cut of the text, from the last one to the first one. */
    method CutText(inString: seq<Unit>) returns (boundary: seq<int>, ghost cut: seq<Step>)
      requires Valid() && inString != [] && NoPairs(inString) && Fits(InputOf(inString))
      ensures Reversed(boundary) == CutEnds(InputOf(inString), cut)
      ensures InputOf(inString).Reached(|inString|) ==> Cheapest(InputOf(inString), cut)
    {
      hide AllLinked, RelaxedBefore, Fits, NoPairs, BytesDictionaryMatcher.Valid, Input.Reached, Reversed, Cheapest;
      cut := [];
      ghost var g := InputOf(inString);
      var numCodePts := |inString|;
      var bestSnlp, prev := Segment(inString);
      boundary := WalkBack(bestSnlp, prev, numCodePts, g);
      FoundReached(g, bestSnlp[..], prev[..], numCodePts, numCodePts);
      if bestSnlp[numCodePts] != kuint32max {
        cut := FoundCut(g, bestSnlp[..], prev[..], numCodePts, numCodePts);
        FoundCheapest(g, bestSnlp[..], prev[..], cut);
      }
    }

    /** Pushes the boundaries in ascending order. */
    method PushBoundaries(boundary: seq<int>, rangeStart: nat, foundBreaks: UStack)
      modifies foundBreaks
      ensures foundBreaks.elements == old(foundBreaks.elements) + Shifted(Reversed(boundary), rangeStart)
    {
      hide Reversed, Shifted;
      ghost var before := foundBreaks.elements;
      var i := |boundary|;
      assert boundary[..i] == boundary;
      while i > 0
        invariant 0 <= i <= |boundary|
        invariant foundBreaks.elements + Shifted(Reversed(boundary[..i]), rangeStart) ==
                  before + Shifted(Reversed(boundary), rangeStart)
      {
        i := i - 1;
        ShiftedNext(boundary, i, rangeStart);
        foundBreaks.Push(boundary[i] + rangeStart);
      }
    }
  }

  function Reversed(s: seq<int>): (r: seq<int>)
    ensures |r| == |s|
  {
    if s == [] then [] else [s[|s| - 1]] + Reversed(s[..|s| - 1])
  }

  function Shifted(s: seq<int>, offset: int): (r: seq<int>)
    ensures |r| == |s| && forall i :: 0 <= i < |r| ==> r[i] == s[i] + offset
  {
    seq(|s|, i requires 0 <= i < |s| => s[i] + offset)
  }

  /** A break for the start of the range, unless there is one already. */
  function StartBreak(before: seq<int>, rangeStart: nat): seq<int> {
    if before == [] || before[|before| - 1] < rangeStart then [0] else []
  }

  /** Where the words of a cut of all text end; without a cut there is only the end of the text. */
  ghost function CutEnds(g: Input, cut: seq<Step>): seq<int> {
    if g.Reached(|g.s|) then Ends(cut, 0) else [|g.s|]
  }

  /** A cut of all text with the lowest total cost. */
  ghost predicate Cheapest(g: Input, cut: seq<Step>) {
    && g.IsCut(0, cut) && Length(cut) == |g.s|
    && forall other :: g.IsCut(0, other) && Length(other) == |g.s| ==> Cost(cut) <= Cost(other)
  }

  lemma FoundCheapest(g: Input, best: seq<int>, prev: seq<int>, cut: seq<Step>)
    requires Fits(g) && AllLinked(g, best, prev, |g.s|) && RelaxedBefore(g, best, |g.s|)
    requires g.IsCut(0, cut) && Length(cut) == |g.s| && Cost(cut) == best[|g.s|]
    ensures Cheapest(g, cut)
  {
    hide Linked, Relaxed;
    forall other | g.IsCut(0, other) && Length(other) == |g.s|
      ensures Cost(cut) <= Cost(other)
    {
      NoCheaperCut(g, best, 0, other);
    }
  }

  /** Every prefix has its lowest cost, and the way back from it is a cut of that cost. */
  lemma EveryPrefix(g: Input, best: seq<int>, prev: seq<int>, k: nat)
    requires Fits(g) && AllLinked(g, best, prev, |g.s|) && RelaxedBefore(g, best, |g.s|) && k <= |g.s|
    ensures forall other :: g.IsCut(0, other) && Length(other) == k ==> best[k] <= Cost(other)
    ensures best[k] != kuint32max ==>
              exists cut :: g.IsCut(0, cut) && Length(cut) == k && Cost(cut) == best[k] && Ends(cut, 0) == Walk(prev, k)
  {
    hide Linked, Relaxed;
    forall other | g.IsCut(0, other) && Length(other) == k
      ensures best[k] <= Cost(other)
    {
      NoCheaperCut(g, best, 0, other);
    }
    if best[k] != kuint32max {
      var cut := FoundCut(g, best, prev, |g.s|, k);
    }
  }

  /** The words of a cut end at increasing positions, the last one at the end. */
  lemma {:induction false} EndsIncrease(g: Input, i: nat, cut: seq<Step>)
    requires i <= |g.s| && g.IsCut(i, cut)
    ensures |Ends(cut, i)| == |cut| && forall k :: 0 <= k < |cut| ==> i < Ends(cut, i)[k] <= i + Length(cut)
    ensures forall k, l :: 0 <= k < l < |cut| ==> Ends(cut, i)[k] < Ends(cut, i)[l]
    ensures cut != [] ==> Ends(cut, i)[|cut| - 1] == i + Length(cut)
    decreases |cut|
  {
    hide Input.From;
    if cut != [] {
      EndsIncrease(g, i + cut[0].length, cut[1..]);
    }
  }

  lemma PushBoundary(prev: seq<int>, i: int, boundary: seq<int>)
    requires 0 < i < |prev| && 0 <= prev[i] < i
    ensures Walk(prev, i) + Reversed(boundary) == Walk(prev, prev[i]) + Reversed(boundary + [i])
  {
    assert (boundary + [i])[..|boundary|] == boundary;
    assert Walk(prev, i) == Walk(prev, prev[i]) + [i];
  }

  lemma ShiftedNext(boundary: seq<int>, i: nat, offset: int)
    requires i < |boundary|
    ensures Shifted(Reversed(boundary[..i + 1]), offset) == [boundary[i] + offset] + Shifted(Reversed(boundary[..i]), offset)
  {
    assert boundary[..i + 1][..i] == boundary[..i];
  }

  lemma ReversedAppend(boundary: seq<int>, x: int)
    ensures Reversed(boundary + [x]) == [x] + Reversed(boundary)
  {
    assert (boundary + [x])[..|boundary|] == boundary;
  }

  lemma CostRange(g: Input, best: seq<int>, prev: seq<int>, i: int, k: int)
    requires AllLinked(g, best, prev, i) && 0 <= k <= |g.s|
    ensures 0 <= best[k]
  {
  }

  lemma LinkedLater(g: Input, best: seq<int>, prev: seq<int>, i: int)
    requires AllLinked(g, best, prev, i)
    ensures AllLinked(g, best, prev, i + 1)
  {
    hide Linked;
  }

  lemma StartState(g: Input, best: seq<int>, prev: seq<int>)
    requires |best| == |prev| == |g.s| + 1 && best[0] == 0 && forall k :: 0 < k <= |g.s| ==> best[k] == kuint32max
    ensures AllLinked(g, best, prev, 0) && RelaxedBefore(g, best, 0) && !g.AfterKatakana(0)
  {
  }
}
