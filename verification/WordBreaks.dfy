/**
 Dividing a range of text without spaces into dictionary words: what the result is, in
 terms of the dictionary words at each position.
 */
module WordBreaks {
  import opened Utf16
  import opened DictionaryMatcher

  const POSSIBLE_WORD_LIST_MAX := 20
  const THAI_PAIYANNOI := 0x0e2f
  const THAI_MAIYAMOK := 0x0e46

  /** The rules of one script. */
  datatype Rules = Rules(
    rootCombineThreshold: nat, prefixCombineThreshold: nat, suffixes: bool,
    endWordSet: set<int>, beginWordSet: set<int>, markSet: set<int>)

  /** The code points from one to another. */
  function Span(first: int, last: int): (r: set<int>)
    ensures forall c :: c in r <==> first <= c <= last
    decreases last - first
  {
    if first > last then {} else {first} + Span(first + 1, last)
  }

  /** The rules for each script, with its letters and its combining marks. */
  function ThaiRules(letters: set<int>, marks: set<int>): Rules {
    Rules(3, 3, true, letters - {0x0e31} - Span(0x0e40, 0x0e44), Span(0x0e01, 0x0e2e) + Span(0x0e40, 0x0e44), marks + {0x20})
  }

  function LaoRules(letters: set<int>, marks: set<int>): Rules {
    Rules(3, 3, false, letters - Span(0x0ec0, 0x0ec4),
          Span(0x0e81, 0x0eae) + Span(0x0edc, 0x0edd) + Span(0x0ec0, 0x0ec4), marks + {0x20})
  }

  function BurmeseRules(letters: set<int>, marks: set<int>): Rules {
    Rules(3, 3, false, letters, Span(0x1000, 0x102a), marks + {0x20})
  }

  function KhmerRules(letters: set<int>, marks: set<int>): Rules {
    Rules(10, 5, false, letters - {0x17d2}, Span(0x1780, 0x17b3), marks + {0x20})
  }

  /** A range of text up to limit, a dictionary and rules. */
  datatype Range = Range(s: seq<Unit>, limit: nat, dict: Dictionary, rules: Rules)
  {
    ghost predicate Valid() {
      Boundary(s, limit) && rules.rootCombineThreshold > 0
    }

    /** The candidate words at p, shortest first. */
    ghost function Candidates(p: nat): (r: seq<Candidate>)
      requires p <= |s|
      ensures forall i :: 0 <= i < |r| ==> 0 < r[i].cuLength <= |s| - p && r[i].cpLength > 0
    {
      dict.FirstWords(s, p, limit - p, POSSIBLE_WORD_LIST_MAX)
    }

    ghost function LongestPrefix(p: nat): nat
      requires p <= |s|
    {
      dict.PrefixLength(s, p, p, 0, limit - p)
    }

    /** Where the candidate j at p ends. */
    ghost function End(p: nat, j: nat): (q: nat)
      requires p <= |s| && j < |Candidates(p)|
      ensures p < q <= |s|
    {
      p + Candidates(p)[j].cuLength
    }

    /** Does a word start at p whose longest candidate reaches the end, or is one of them followed by a word? */
    ghost predicate LeadsOn(p: nat)
      requires p <= |s|
    {
      var n := |Candidates(p)|;
      n > 0 && (End(p, n - 1) >= limit || exists k: nat :: k < n && Candidates(End(p, k)) != [])
    }

    ghost predicate Followed(p: nat, j: nat)
      requires p <= |s| && j < |Candidates(p)|
    {
      Candidates(End(p, j)) != []
    }

    ghost predicate FollowedTwice(p: nat, j: nat)
      requires p <= |s| && j < |Candidates(p)|
    {
      LeadsOn(End(p, j))
    }

    /** The choice among the candidates 0..j-1 at p, longest first; mark is the best one so far. */
    ghost function Choose(p: nat, j: nat, mark: nat): (c: nat)
      requires p <= |s| && j <= |Candidates(p)| && mark < |Candidates(p)|
      ensures c < |Candidates(p)|
    {
      if j == 0 then mark
      else if FollowedTwice(p, j - 1) then j - 1
      else Choose(p, j - 1, if Followed(p, j - 1) then j - 1 else mark)
    }

    /** Which of the candidates at p is taken. */
    ghost function Chosen(p: nat): (j: nat)
      requires p <= |s| && Candidates(p) != []
      ensures j < |Candidates(p)|
    {
      var n := |Candidates(p)|;
      if End(p, n - 1) >= limit then n - 1 else Choose(p, n, n - 1)
    }

    /** The end of a stretch which is not in the dictionary, from q on. */
    ghost function Resynchronized(q: nat): (r: nat)
      requires q < limit <= |s|
      ensures q < r
      decreases limit - q
    {
      var n := Next(s, q);
      if n >= limit then n
      else if CodePointAt(s, q) in rules.endWordSet && CodePointAt(s, n) in rules.beginWordSet && Candidates(n) != [] then n
      else Resynchronized(n)
    }

    /** The end of the word at p, or p if there is none. */
    ghost function WordEnd(p: nat): (q: nat)
      requires p <= |s|
      ensures p <= q <= |s|
    {
      if Candidates(p) == [] then p else End(p, Chosen(p))
    }

    ghost function WordLength(p: nat): nat
      requires p <= |s|
    {
      if Candidates(p) == [] then 0 else Candidates(p)[Chosen(p)].cpLength
    }

    /** Is the text after the word at p combined with that word up to the next plausible start of a word? */
    ghost predicate Combines(p: nat)
      requires p <= |s|
    {
      var q := WordEnd(p);
      && q < limit && WordLength(p) < rules.rootCombineThreshold && Candidates(q) == []
      && (q == p || LongestPrefix(q) < rules.prefixCombineThreshold)
    }

    ghost function Combined(p: nat): (q: nat)
      requires p < limit <= |s|
      ensures p <= q
    {
      if Combines(p) then Resynchronized(WordEnd(p)) else WordEnd(p)
    }

    /** The first position from q on which is not in front of a mark. */
    ghost function AfterMarks(q: nat): (r: nat)
      requires limit <= |s|
      ensures q <= r
      decreases |s| - q
    {
      if q < limit && CodePointAt(s, q) in rules.markSet then AfterMarks(Next(s, q)) else q
    }

    ghost function CodePointBefore(q: nat): int
      requires 0 < q <= |s|
    {
      CodePointAt(s, Previous(s, q))
    }

    /** The position after a Thai ellision character at q which does not follow a suffix character. */
    ghost function AfterPaiyannoi(q: nat): (r: nat)
      requires 0 < q < |s|
      ensures q <= r <= |s|
    {
      if CodePointAt(s, q) == THAI_PAIYANNOI && CodePointBefore(q) !in {THAI_PAIYANNOI, THAI_MAIYAMOK} then Next(s, q)
      else q
    }

    /** The position after a Thai repeat character at q which does not follow another one. */
    ghost function AfterMaiyamok(q: nat): (r: nat)
      requires 0 < q <= |s|
      ensures q <= r <= |s|
    {
      if q < |s| && CodePointAt(s, q) == THAI_MAIYAMOK && CodePointBefore(q) != THAI_MAIYAMOK then Next(s, q) else q
    }

    /** The position after suffix characters at q, unless a word starts there. */
    ghost function AfterSuffixes(q: nat): (r: nat)
      requires 0 < q && limit <= |s|
      ensures q <= r
    {
      if rules.suffixes && q < limit && Candidates(q) == [] then AfterMaiyamok(AfterPaiyannoi(q)) else q
    }

    /** Where the next break after p is. */
    ghost function BreakAfter(p: nat): (q: nat)
      requires p < limit && Valid()
      ensures p < q
    {
      CombinedProgress(p);
      AfterSuffixes(AfterMarks(Combined(p)))
    }

    lemma CombinedProgress(p: nat)
      requires p < limit && Valid()
      ensures p < Combined(p)
    {
    }

    /** All breaks after p; the last one is not before the limit. */
    ghost function Breaks(p: nat): seq<nat>
      requires Valid()
      decreases limit - p
    {
      if p >= limit then [] else [BreakAfter(p)] + Breaks(BreakAfter(p))
    }
  }

  ghost predicate SomeFollowedTwice(r: Range, p: nat)
    requires p <= |r.s|
  {
    exists j: nat :: j < |r.Candidates(p)| && r.FollowedTwice(p, j)
  }

  ghost predicate SomeFollowed(r: Range, p: nat)
    requires p <= |r.s|
  {
    exists j: nat :: j < |r.Candidates(p)| && r.Followed(p, j)
  }

  /**
   The candidate which is taken: the longest one if it reaches the end; else the longest one with a second word
   which reaches the end or has a third word after one of its candidates; else the shortest one with a second word;
   else the longest one.
   */
  lemma ChosenRule(r: Range, p: nat)
    requires p <= |r.s| && r.Candidates(p) != []
    ensures var n, c := |r.Candidates(p)|, r.Chosen(p);
      if r.End(p, n - 1) >= r.limit then c == n - 1
      else if SomeFollowedTwice(r, p) then
        r.FollowedTwice(p, c) && forall k: nat :: c < k < n ==> !r.FollowedTwice(p, k)
      else if SomeFollowed(r, p) then
        r.Followed(p, c) && forall k: nat :: k < c ==> !r.Followed(p, k)
      else c == n - 1
  {
    var n := |r.Candidates(p)|;
    if r.End(p, n - 1) < r.limit {
      hide Range.Candidates, Range.End, Range.FollowedTwice, Range.Followed;
      ChooseRule(r, p, n, n - 1);
    }
  }

  lemma {:induction false} ChooseRule(r: Range, p: nat, j: nat, mark: nat)
    requires p <= |r.s| && j <= |r.Candidates(p)| && mark < |r.Candidates(p)|
    ensures var n, c := |r.Candidates(p)|, r.Choose(p, j, mark);
      && c < n
      && if exists i: nat :: i < j && r.FollowedTwice(p, i) then
           c < j && r.FollowedTwice(p, c) && forall k: nat :: c < k < j ==> !r.FollowedTwice(p, k)
         else if exists i: nat :: i < j && r.Followed(p, i) then
           c < j && r.Followed(p, c) && forall k: nat :: k < c ==> !r.Followed(p, k)
         else c == mark
    decreases j
  {
    hide Range.Candidates, Range.Followed, Range.FollowedTwice;
    if j > 0 && !r.FollowedTwice(p, j - 1) {
      ChooseRule(r, p, j - 1, if r.Followed(p, j - 1) then j - 1 else mark);
    }
  }

  /** In a range whose ends are code point boundaries, no candidate goes beyond the end. */
  lemma CandidateEnd(r: Range, p: nat, j: nat)
    requires r.Valid() && Boundary(r.s, p) && p < r.limit && j < |r.Candidates(p)|
    ensures Boundary(r.s, r.End(p, j)) && r.End(p, j) <= r.limit
  {
    hide Dictionary.Words;
    var all := r.dict.Words(r.s, p, p, 0, r.limit - p);
    assert r.Candidates(p)[j] == all[j];
    WordsSound(r.dict, r.s, p, p, 0, r.limit - p, j);
    BoundaryStep(r.s, r.End(p, j));
    BoundaryBefore(r.s, r.End(p, j), r.limit);
  }

  lemma WordInRange(r: Range, p: nat)
    requires r.Valid() && Boundary(r.s, p) && p < r.limit
    ensures Boundary(r.s, r.WordEnd(p)) && r.WordEnd(p) <= r.limit
  {
    if r.Candidates(p) != [] {
      CandidateEnd(r, p, r.Chosen(p));
    }
  }

  /** A word starts at k, after a character which can end words, with one which can begin words. */
  ghost predicate WordMayStart(r: Range, k: nat) {
    && 0 < k < |r.s| && r.CodePointBefore(k) in r.rules.endWordSet && CodePointAt(r.s, k) in r.rules.beginWordSet
    && r.Candidates(k) != []
  }

  /** Resynchronisation ends at the first plausible start of a word after q, or at the end of the range. */
  lemma {:induction false} ResynchronizedFirst(r: Range, q: nat)
    requires r.Valid() && Boundary(r.s, q) && q < r.limit
    ensures var n := r.Resynchronized(q);
      && q < n <= r.limit && Boundary(r.s, n) && (n < r.limit ==> WordMayStart(r, n))
      && forall k: nat :: q < k < n && Boundary(r.s, k) ==> !WordMayStart(r, k)
    decreases r.limit - q
  {
    hide Range.Candidates;
    BoundaryStep(r.s, q);
    BoundaryOrder(r.s, q, r.limit);
    var n, m := Next(r.s, q), r.Resynchronized(q);
    BoundaryStep(r.s, n);
    BoundaryOrder(r.s, q, n);
    if m != n {
      ResynchronizedFirst(r, n);
    }
    forall k: nat | q < k < m && Boundary(r.s, k)
      ensures !WordMayStart(r, k)
    {
      BoundaryOrder(r.s, q, k);
    }
  }

  /** Everything which is skipped to get behind marks is a mark. */
  lemma {:induction false} OnlyMarksSkipped(r: Range, q: nat)
    requires r.Valid() && Boundary(r.s, q) && q <= r.limit
    ensures var m := r.AfterMarks(q);
      && q <= m <= r.limit && (m < r.limit ==> CodePointAt(r.s, m) !in r.rules.markSet)
      && forall k: nat :: q <= k < m && Boundary(r.s, k) ==> CodePointAt(r.s, k) in r.rules.markSet
    decreases r.limit - q
  {
    hide CodePointAt;
    AfterMarksInRange(r, q);
    var m := r.AfterMarks(q);
    if q < m {
      var n := Next(r.s, q);
      BoundaryStep(r.s, q);
      BoundaryOrder(r.s, q, r.limit);
      OnlyMarksSkipped(r, n);
      forall k: nat | q <= k < m && Boundary(r.s, k)
        ensures CodePointAt(r.s, k) in r.rules.markSet
      {
        if k > q {
          BoundaryOrder(r.s, q, k);
        }
      }
    }
  }

  lemma CombinedInRange(r: Range, p: nat)
    requires r.Valid() && Boundary(r.s, p) && p < r.limit
    ensures Boundary(r.s, r.Combined(p)) && r.Combined(p) <= r.limit
  {
    hide Range.Candidates, Range.Resynchronized, Range.WordEnd, Range.WordLength;
    WordInRange(r, p);
    if r.Combines(p) {
      ResynchronizedFirst(r, r.WordEnd(p));
    }
  }

  lemma {:induction false} AfterMarksInRange(r: Range, q: nat)
    requires r.Valid() && Boundary(r.s, q) && q <= r.limit
    ensures var m := r.AfterMarks(q);
      Boundary(r.s, m) && m <= r.limit && (m < r.limit ==> CodePointAt(r.s, m) !in r.rules.markSet)
    decreases r.limit - q
  {
    if q < r.limit {
      BoundaryStep(r.s, q);
      BoundaryOrder(r.s, q, r.limit);
      if CodePointAt(r.s, q) in r.rules.markSet {
        AfterMarksInRange(r, Next(r.s, q));
      }
    }
  }

  /** Breaks are between code points; without suffix rules they stay in the range and are never in front of a mark. */
  lemma BreakInRange(r: Range, p: nat)
    requires r.Valid() && Boundary(r.s, p) && p < r.limit
    ensures var b := r.BreakAfter(p);
      && p < b && Boundary(r.s, b)
      && (!r.rules.suffixes ==> b <= r.limit && (b < r.limit ==> CodePointAt(r.s, b) !in r.rules.markSet))
  {
    hide Range.Candidates, Range.Resynchronized, Range.WordEnd, Range.WordLength, Range.Combined, Next, CodePointAt, PairAt;
    CombinedInRange(r, p);
    r.CombinedProgress(p);
    AfterMarksInRange(r, r.Combined(p));
    var m := r.AfterMarks(r.Combined(p));
    BoundaryStep(r.s, m);
    if m < |r.s| {
      BoundaryStep(r.s, r.AfterPaiyannoi(m));
    }
  }

  /** With suffix rules, a break can be in front of a mark, but only after a suffix character. */
  lemma ThaiBreak(r: Range, p: nat)
    requires r.Valid() && Boundary(r.s, p) && p < r.limit
    ensures var b := r.BreakAfter(p);
      && 0 < b <= |r.s|
      && (b < |r.s| && CodePointAt(r.s, b) in r.rules.markSet && b < r.limit ==>
            r.rules.suffixes && r.CodePointBefore(b) in {THAI_PAIYANNOI, THAI_MAIYAMOK})
      && (b > r.limit ==> r.rules.suffixes && r.CodePointBefore(b) == THAI_MAIYAMOK && Previous(r.s, b) == r.limit)
  {
    hide Range.Candidates, Range.Resynchronized, Range.WordEnd, Range.WordLength, Range.Combined, Next, CodePointAt, PairAt;
    CombinedInRange(r, p);
    r.CombinedProgress(p);
    AfterMarksInRange(r, r.Combined(p));
    var m := r.AfterMarks(r.Combined(p));
    BoundaryStep(r.s, m);
    if m < r.limit {
      BoundaryOrder(r.s, m, r.limit);
      var n := r.AfterPaiyannoi(m);
      BoundaryStep(r.s, n);
      if n < r.limit {
        BoundaryOrder(r.s, n, r.limit);
      }
    }
  }

  /** The breaks increase strictly; all but the last are inside the range, and the last one is not before its end. */
  lemma {:induction false} BreaksInside(r: Range, p: nat)
    requires r.Valid() && Boundary(r.s, p) && p < r.limit
    ensures var b := r.Breaks(p); var n := |b| - 1;
      && n >= 0 && b[n] >= r.limit
      && (forall i :: 0 <= i <= n ==> p < b[i] && Boundary(r.s, b[i]))
      && (forall i :: 0 <= i < n ==> b[i] < r.limit)
      && (forall i, j :: 0 <= i < j <= n ==> b[i] < b[j])
      && (!r.rules.suffixes ==> b[n] == r.limit)
      && (!r.rules.suffixes ==> forall i :: 0 <= i < n ==> CodePointAt(r.s, b[i]) !in r.rules.markSet)
    decreases r.limit - p
  {
    hide Range.BreakAfter, CodePointAt, Boundary;
    BreakInRange(r, p);
    var q := r.BreakAfter(p);
    if q < r.limit {
      BreaksInside(r, q);
    } else {
      assert r.Breaks(q) == [];
    }
  }

  /** The engines without suffix rules: no break inside the range stands in front of a mark of the script or a space. */
  lemma ScriptBreaks(r: Range, p: nat, letters: set<int>, marks: set<int>)
    requires r.rules in {LaoRules(letters, marks), BurmeseRules(letters, marks), KhmerRules(letters, marks)}
    requires r.Valid() && Boundary(r.s, p) && p < r.limit
    ensures var b := r.Breaks(p); var inner := InnerBreaks(r, p);
      && b == inner + [r.limit]
      && (forall i :: 0 <= i < |inner| ==> p < inner[i] < r.limit && Boundary(r.s, inner[i]))
      && (forall i, j :: 0 <= i < j < |inner| ==> inner[i] < inner[j])
      && forall i :: 0 <= i < |inner| ==> CodePointAt(r.s, inner[i]) !in marks && CodePointAt(r.s, inner[i]) != 0x20
  {
    hide Range.Breaks, CodePointAt, PairAt;
    BreaksInside(r, p);
    assert r.rules.markSet == marks + {0x20};
  }

  /** The breaks inside the range. */
  ghost function InnerBreaks(r: Range, p: nat): seq<nat>
    requires r.Valid()
  {
    var b := r.Breaks(p);
    if b == [] then [] else b[..|b| - 1]
  }
}
