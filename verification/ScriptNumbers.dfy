/** The Thai, Lao, Burmese and Khmer rules in numbers: when text is combined with the word before it, and up to where. */
module ScriptNumbers {
  import opened Trie
  import opened Utf16
  import opened UText
  import opened DictionaryMatcher
  import opened WordBreaks
  import opened ThaiBreaks
  import opened BreakEngines

  datatype Script = Thai | Lao | Burmese | Khmer
  {
    function Rules(letters: set<int>, marks: set<int>): Rules {
      match this
      case Thai => ThaiRules(letters, marks)
      case Lao => LaoRules(letters, marks)
      case Burmese => BurmeseRules(letters, marks)
      case Khmer => KhmerRules(letters, marks)
    }

    /** Can a word end with the letter c? */
    predicate CanEnd(c: int) {
      match this
      case Thai => c != 0x0e31 && !(0x0e40 <= c <= 0x0e44)
      case Lao => !(0x0ec0 <= c <= 0x0ec4)
      case Burmese => true
      case Khmer => c != 0x17d2
    }

    /** Can a word begin with c? */
    predicate CanBegin(c: int) {
      match this
      case Thai => 0x0e01 <= c <= 0x0e2e || 0x0e40 <= c <= 0x0e44
      case Lao => 0x0e81 <= c <= 0x0eae || 0x0edc <= c <= 0x0edd || 0x0ec0 <= c <= 0x0ec4
      case Burmese => 0x1000 <= c <= 0x102a
      case Khmer => 0x1780 <= c <= 0x17b3
    }
  }

  /** Does a word from p end in the range? */
  ghost predicate WordFrom(r: Range, p: nat) {
    exists e: nat :: p < e <= r.limit && Boundary(r.s, e) && r.dict.IsWord(r.s, p, e)
  }

  /** Do n code points from p, which end before the range does, begin a longer word? */
  ghost predicate LongerFrom(r: Range, p: nat, n: nat) {
    exists e: nat :: p < e < r.limit && Boundary(r.s, e) && |Decode(r.s[p..e])| == n && r.dict.IsPrefix(r.s, p, e)
  }

  /** A word starts at k, after a letter which can end words, with a character which can begin words. */
  ghost predicate MayStart(r: Range, script: Script, letters: set<int>, k: nat) {
    && 0 < k < r.limit <= |r.s| && r.CodePointBefore(k) in letters && script.CanEnd(r.CodePointBefore(k))
    && script.CanBegin(CodePointAt(r.s, k)) && WordFrom(r, k)
  }

  /** A Thai ellision character at m, a repeat character, or both: where they end, when they follow no other ones. */
  ghost function Suffixes(r: Range, m: nat): nat
    requires 0 < m < |r.s|
  {
    var before, c := r.CodePointBefore(m), CodePointAt(r.s, m);
    if c == 0x0e2f && before != 0x0e2f && before != 0x0e46 then
      var n := Next(r.s, m);
      if n < |r.s| && CodePointAt(r.s, n) == 0x0e46 then Next(r.s, n) else n
    else if c == 0x0e46 && before != 0x0e46 then Next(r.s, m)
    else m
  }

  /**
   The next break after p. A word from p ends at q; without a word q is p. If no word starts there, the text is
   combined with a word of less than 3 code points, or 10 in Khmer, of which less than 3, or 5 in Khmer, are the
   beginning of some word; and in any case if there is no word from p. It is combined up to n, which is the first
   position where a word may start, or the end of the range. The break is at the first position m which is not in front
   of a mark or a space, or behind Thai suffix characters there.
   */
  lemma BreakRule(r: Range, script: Script, letters: set<int>, marks: set<int>, p: nat) returns (n: nat, m: nat)
    requires r.rules == script.Rules(letters, marks) && r.Valid() && Boundary(r.s, p) && p < r.limit
    ensures var q := r.WordEnd(p);
      && (if WordFrom(r, p) then p < q <= r.limit && Boundary(r.s, q) && r.dict.IsWord(r.s, p, q) else q == p)
      && q <= n
      && (n > q <==>
            && q < r.limit && !WordFrom(r, q)
            && (q == p || if script.Khmer? then |Decode(r.s[p..q])| < 10 && !LongerFrom(r, q, 4)
                          else |Decode(r.s[p..q])| < 3 && !LongerFrom(r, q, 2)))
      && (n > q ==>
            && n <= r.limit && Boundary(r.s, n) && (n < r.limit ==> MayStart(r, script, letters, n))
            && forall k: nat :: q < k < n && Boundary(r.s, k) ==> !MayStart(r, script, letters, k))
    ensures n <= m <= r.limit && Boundary(r.s, m)
    ensures m < r.limit ==> CodePointAt(r.s, m) !in marks && CodePointAt(r.s, m) != 0x20
    ensures forall k: nat :: n <= k < m && Boundary(r.s, k) ==> CodePointAt(r.s, k) in marks || CodePointAt(r.s, k) == 0x20
    ensures r.BreakAfter(p) == if script.Thai? && m < r.limit && !WordFrom(r, m) then Suffixes(r, m) else m
  {
    hide Range.Candidates, Range.WordEnd, Range.WordLength, Range.Combined, Range.Combines, Range.BreakAfter, Range.AfterMarks,
         Range.Resynchronized, Range.LongestPrefix, CodePointAt, Decode, WordFrom, LongerFrom, MayStart, WordMayStart,
         Suffixes, SuffixEnd, PairAt;
    n, m := r.Combined(p), WordEndAfterMarks(r, p);
    CombinedInRange(r, p);
    TakenWord(r, p);
    CombinesInNumbers(r, script, letters, marks, p);
    CombinedUpTo(r, script, letters, marks, p);
    MarksInNumbers(r, script, letters, marks, n);
    SuffixesTaken(r, p);
    SuffixesInNumbers(r, script, letters, marks, m);
  }

  /** There are candidates exactly if there is a word. */
  lemma CandidatesAreWords(r: Range, p: nat)
    requires r.Valid() && Boundary(r.s, p) && p < r.limit
    ensures r.Candidates(p) != [] <==> WordFrom(r, p)
  {
    hide Dictionary.Words, Dictionary.IsWord, PairAt;
    var all := r.dict.Words(r.s, p, p, 0, r.limit - p);
    if all != [] {
      WordLengths(r.dict, r.s, p, r.limit - p, all[0].cuLength);
    }
    if e: nat :| p < e <= r.limit && Boundary(r.s, e) && r.dict.IsWord(r.s, p, e) {
      WordLengths(r.dict, r.s, p, r.limit - p, e - p);
    }
  }

  /** The end and the length of the word which is taken. */
  lemma TakenWord(r: Range, p: nat)
    requires r.Valid() && Boundary(r.s, p) && p < r.limit
    ensures var q := r.WordEnd(p);
      && (if WordFrom(r, p) then p < q <= r.limit && Boundary(r.s, q) && r.dict.IsWord(r.s, p, q) else q == p)
      && r.WordLength(p) == |Decode(r.s[p..q])|
  {
    hide Dictionary.Words, Dictionary.IsWord, PairAt, Range.Chosen, WordFrom;
    CandidatesAreWords(r, p);
    if r.Candidates(p) != [] {
      var j := r.Chosen(p);
      CandidateEnd(r, p, j);
      var all := r.dict.Words(r.s, p, p, 0, r.limit - p);
      assert r.Candidates(p)[j] == all[j];
      WordsSound(r.dict, r.s, p, p, 0, r.limit - p, j);
    }
  }

  /** At least k + 1 code points are looked at exactly if k of them begin a longer word. */
  lemma {:induction false} LookedAt(r: Range, start: nat, p: nat, n: nat, k: nat)
    requires r.Valid() && start <= p < r.limit && Boundary(r.s, start) && Boundary(r.s, p)
    requires n == |Decode(r.s[start..p])| < k
    ensures r.dict.PrefixLength(r.s, start, p, n, r.limit - start) > k <==> LongerFrom(r, start, k)
    decreases r.limit - p
  {
    hide Decode, Dictionary.Words, Dictionary.IsPrefix, Dictionary.PrefixLength, PairAt, Next, LongerFrom;
    var d, s, q := r.dict, r.s, Next(r.s, p);
    BoundaryStep(s, p);
    BoundaryOrder(s, p, r.limit);
    WordsStep(d, s, start, p, n, r.limit - start);
    CountNext(s, start, p);
    LongerBegins(r, start, p, k);
    if !d.IsPrefix(s, start, q) || q == r.limit {
    } else if n + 1 == k {
      PrefixGrows(d, s, start, q, k, r.limit - start);
    } else {
      LookedAt(r, start, q, n + 1, k);
    }
  }

  /** The code point after p is part of what begins a longer word. */
  lemma LongerBegins(r: Range, start: nat, p: nat, k: nat)
    requires r.Valid() && start <= p < r.limit && Boundary(r.s, start) && Boundary(r.s, p)
    requires |Decode(r.s[start..p])| < k
    ensures var q := Next(r.s, p);
      && (LongerFrom(r, start, k) ==> q < r.limit && r.dict.IsPrefix(r.s, start, q))
      && (q < r.limit && |Decode(r.s[start..q])| == k && r.dict.IsPrefix(r.s, start, q) ==> LongerFrom(r, start, k))
  {
    hide Decode, Dictionary.IsPrefix, PairAt, Next;
    var s, q := r.s, Next(r.s, p);
    BoundaryStep(s, p);
    BoundaryOrder(s, p, r.limit);
    if e: nat :| start < e < r.limit && Boundary(s, e) && |Decode(s[start..e])| == k && r.dict.IsPrefix(s, start, e) {
      CountOrder(s, start, p, e);
      BoundaryOrder(s, p, e);
      ShorterPrefix(r.dict, s, start, q, e);
    }
  }

  lemma CountNext(s: seq<Unit>, start: nat, p: nat)
    requires start <= p < |s| && Boundary(s, start) && Boundary(s, p)
    ensures |Decode(s[start..Next(s, p)])| == |Decode(s[start..p])| + 1
  {
    hide Decode;
    var u := s[start..];
    assert u[..p - start] == s[start..p] && u[..Next(s, p) - start] == s[start..Next(s, p)];
    DecodeNext(u, p - start);
  }

  /** What more code points end with is not before what fewer ones end with. */
  lemma {:induction false} CountOrder(s: seq<Unit>, start: nat, p: nat, e: nat)
    requires start <= p <= |s| && start <= e <= |s| && Boundary(s, start) && Boundary(s, p) && Boundary(s, e)
    requires |Decode(s[start..p])| < |Decode(s[start..e])|
    ensures p < e
  {
    hide Decode;
    if e <= p {
      DecodeParts(s, start, e, p);
    }
  }

  lemma DecodeParts(s: seq<Unit>, start: nat, e: nat, p: nat)
    requires start <= e <= p <= |s| && Boundary(s, start) && Boundary(s, p) && Boundary(s, e)
    ensures Decode(s[start..p]) == Decode(s[start..e]) + Decode(s[e..p])
  {
    hide Decode;
    var u := s[start..p];
    assert u[..e - start] == s[start..e] && u[e - start..] == s[e..p];
    DecodeSplit(u, e - start);
  }

  /** What begins a longer word begins with the beginning of a longer word. */
  lemma ShorterPrefix(d: Dictionary, s: seq<Unit>, start: nat, q: nat, e: nat)
    requires start <= q <= e <= |s| && Boundary(s, start) && Boundary(s, q) && Boundary(s, e)
    requires d.IsPrefix(s, start, e)
    ensures d.IsPrefix(s, start, q)
  {
    hide Decode;
    DecodeParts(s, start, q, e);
    var shorter, longer := Key(d.transform, Decode(s[start..q])), Key(d.transform, Decode(s[start..e]));
    assert shorter <= longer;
    var w :| w in d.words && longer < w.key;
    assert shorter < w.key;
  }

  lemma CombinesInNumbers(r: Range, script: Script, letters: set<int>, marks: set<int>, p: nat)
    requires r.rules == script.Rules(letters, marks) && r.Valid() && Boundary(r.s, p) && p < r.limit
    ensures var q := r.WordEnd(p);
      r.Combines(p) <==>
        && q < r.limit && !WordFrom(r, q)
        && (q == p || if script.Khmer? then |Decode(r.s[p..q])| < 10 && !LongerFrom(r, q, 4)
                      else |Decode(r.s[p..q])| < 3 && !LongerFrom(r, q, 2))
  {
    hide Range.Candidates, Range.WordEnd, Range.WordLength, Decode, LongerFrom, WordFrom, PairAt, Dictionary.PrefixLength;
    var q := r.WordEnd(p);
    TakenWord(r, p);
    if q < r.limit {
      CandidatesAreWords(r, q);
      EmptyCount(r.s, q);
      LookedAt(r, q, q, 0, if script.Khmer? then 4 else 2);
      if q == p {
        EmptyCount(r.s, p);
      }
    }
  }

  lemma EmptyCount(s: seq<Unit>, q: nat)
    requires q <= |s|
    ensures |Decode(s[q..q])| == 0
  {
  }

  /** Where combining ends. */
  lemma CombinedUpTo(r: Range, script: Script, letters: set<int>, marks: set<int>, p: nat)
    requires r.rules == script.Rules(letters, marks) && r.Valid() && Boundary(r.s, p) && p < r.limit
    ensures var q, n := r.WordEnd(p), r.Combined(p);
      && q <= n && (n > q <==> r.Combines(p))
      && (n > q ==>
            && n <= r.limit && Boundary(r.s, n) && (n < r.limit ==> MayStart(r, script, letters, n))
            && forall k: nat :: q < k < n && Boundary(r.s, k) ==> !MayStart(r, script, letters, k))
  {
    hide Range.Candidates, Range.WordEnd, Range.WordLength, Range.Resynchronized, PairAt, MayStart, WordMayStart;
    var q, n := r.WordEnd(p), r.Combined(p);
    WordInRange(r, p);
    if r.Combines(p) {
      ResynchronizedFirst(r, q);
      forall k: nat | q < k <= n && k < r.limit && Boundary(r.s, k)
        ensures WordMayStart(r, k) <==> MayStart(r, script, letters, k)
      {
        StartInNumbers(r, script, letters, marks, k);
      }
    }
  }

  lemma StartInNumbers(r: Range, script: Script, letters: set<int>, marks: set<int>, k: nat)
    requires r.rules == script.Rules(letters, marks) && r.Valid() && 0 < k < r.limit && Boundary(r.s, k)
    ensures WordMayStart(r, k) <==> MayStart(r, script, letters, k)
  {
    hide Range.Candidates, WordFrom, CodePointAt, Range.CodePointBefore, PairAt;
    hide ThaiRules, LaoRules, BurmeseRules, KhmerRules;
    CandidatesAreWords(r, k);
    EndsAndBegins(script, letters, marks, r.CodePointBefore(k), CodePointAt(r.s, k));
  }

  lemma EndsAndBegins(script: Script, letters: set<int>, marks: set<int>, before: int, c: int)
    ensures before in script.Rules(letters, marks).endWordSet <==> before in letters && script.CanEnd(before)
    ensures c in script.Rules(letters, marks).beginWordSet <==> script.CanBegin(c)
  {
  }

  lemma MarksInNumbers(r: Range, script: Script, letters: set<int>, marks: set<int>, n: nat)
    requires r.rules == script.Rules(letters, marks) && r.Valid() && Boundary(r.s, n) && n <= r.limit
    ensures var m := r.AfterMarks(n);
      && n <= m <= r.limit && (m < r.limit ==> CodePointAt(r.s, m) !in marks && CodePointAt(r.s, m) != 0x20)
      && forall k: nat :: n <= k < m && Boundary(r.s, k) ==> CodePointAt(r.s, k) in marks || CodePointAt(r.s, k) == 0x20
  {
    hide CodePointAt, PairAt, Range.AfterMarks;
    OnlyMarksSkipped(r, n);
    assert r.rules.markSet == marks + {0x20};
  }

  lemma SuffixesInNumbers(r: Range, script: Script, letters: set<int>, marks: set<int>, m: nat)
    requires r.rules == script.Rules(letters, marks) && r.Valid() && 0 < m <= r.limit && Boundary(r.s, m)
    ensures LooksForSuffixes(r, m) <==> script.Thai? && m < r.limit && !WordFrom(r, m)
    ensures m < r.limit ==> SuffixEnd(r, m) == Suffixes(r, m)
  {
    hide Range.Candidates, WordFrom, CodePointAt, PairAt;
    if m < r.limit {
      CandidatesAreWords(r, m);
    }
  }

  ghost function ShorterWords(r: Range, p: nat, e: nat): set<nat> {
    set k: nat | p < k < e && k <= r.limit && Boundary(r.s, k) && r.dict.IsWord(r.s, p, k)
  }

  /** One of the 20 shortest words from p ends at e. */
  ghost predicate IsCandidate(r: Range, p: nat, e: nat) {
    p < e <= r.limit && Boundary(r.s, e) && r.dict.IsWord(r.s, p, e) && |ShorterWords(r, p, e)| < 20
  }

  /** A candidate is the second word from e on, which reaches the end of the range or has a third word after it. */
  ghost predicate TwoMore(r: Range, e: nat) {
    exists f: nat :: IsCandidate(r, e, f) && (f == r.limit || WordFrom(r, f))
  }

  /**
   The word which is taken, out of the 20 shortest: one which reaches the end of the range; else the longest with two
   more words after it; else the shortest with one more word after it; else the longest.
   */
  lemma WordRule(r: Range, p: nat)
    requires r.Valid() && Boundary(r.s, p) && p < r.limit && WordFrom(r, p)
    ensures var q := r.WordEnd(p);
      && IsCandidate(r, p, q)
      && if IsCandidate(r, p, r.limit) then q == r.limit
         else if exists e: nat :: IsCandidate(r, p, e) && TwoMore(r, e) then
           TwoMore(r, q) && forall e: nat :: IsCandidate(r, p, e) && TwoMore(r, e) ==> e <= q
         else if exists e: nat :: IsCandidate(r, p, e) && WordFrom(r, e) then
           WordFrom(r, q) && forall e: nat :: IsCandidate(r, p, e) && WordFrom(r, e) ==> q <= e
         else forall e: nat :: IsCandidate(r, p, e) ==> e <= q
  {
    hide Range.Candidates, Range.End, Range.Chosen, Range.Followed, Range.FollowedTwice, IsCandidate, WordFrom, TwoMore,
         PairAt;
    CandidatesAreWords(r, p);
    ChosenRule(r, p);
    var n, c := |r.Candidates(p)|, r.Chosen(p);
    TakenEnd(r, p);
    CandidateEnds(r, p);
    CandidateEnd(r, p, n - 1);
    forall i: nat, j: nat | i < j < n
      ensures r.End(p, i) < r.End(p, j)
    {
      EndsOrdered(r, p, i, j);
    }
    if r.End(p, n - 1) < r.limit {
      forall j: nat | j < n
        ensures r.Followed(p, j) <==> WordFrom(r, r.End(p, j))
        ensures r.FollowedTwice(p, j) <==> TwoMore(r, r.End(p, j))
      {
        FollowedInNumbers(r, p, j);
      }
    }
  }

  lemma TakenEnd(r: Range, p: nat)
    requires p <= |r.s| && r.Candidates(p) != []
    ensures r.WordEnd(p) == r.End(p, r.Chosen(p))
  {
  }

  lemma EndsOrdered(r: Range, p: nat, i: nat, j: nat)
    requires r.Valid() && Boundary(r.s, p) && p < r.limit && i < j < |r.Candidates(p)|
    ensures r.End(p, i) < r.End(p, j) <= r.limit
  {
    hide Dictionary.FirstWords, Dictionary.Words, PairAt;
    FirstWordsShortest(r.dict, r.s, p, r.limit - p, POSSIBLE_WORD_LIST_MAX);
    CandidateEnd(r, p, j);
  }

  /** The candidates end where the 20 shortest words do. */
  lemma CandidateEnds(r: Range, p: nat)
    requires r.Valid() && Boundary(r.s, p) && p < r.limit
    ensures forall j: nat :: j < |r.Candidates(p)| ==> IsCandidate(r, p, r.End(p, j))
    ensures forall e: nat :: IsCandidate(r, p, e) ==> exists j: nat :: j < |r.Candidates(p)| && r.End(p, j) == e
  {
    hide Dictionary.Words, Dictionary.IsWord, PairAt, ShorterWords;
    var all := r.dict.Words(r.s, p, p, 0, r.limit - p);
    WordsAscend(r.dict, r.s, p, p, 0, r.limit - p);
    forall j: nat | j < |r.Candidates(p)|
      ensures IsCandidate(r, p, r.End(p, j))
    {
      WordLengths(r.dict, r.s, p, r.limit - p, all[j].cuLength);
      assert all[j] in all;
      ShorterCount(r, p, j);
    }
    forall e: nat | IsCandidate(r, p, e)
      ensures exists j: nat :: j < |r.Candidates(p)| && r.End(p, j) == e
    {
      WordLengths(r.dict, r.s, p, r.limit - p, e - p);
      var w :| w in all && w.cuLength == e - p;
      var j: nat :| j < |all| && all[j] == w;
      ShorterCount(r, p, j);
      assert r.End(p, j) == e;
    }
  }

  /** No word ends between two words of the list which follow each other. */
  lemma NoneBetween(r: Range, p: nat, j: nat, k: nat)
    requires r.Valid() && Boundary(r.s, p) && p < r.limit
    requires j < |r.dict.Words(r.s, p, p, 0, r.limit - p)|
    requires var all := r.dict.Words(r.s, p, p, 0, r.limit - p);
      p + (if j == 0 then 0 else all[j - 1].cuLength) < k < p + all[j].cuLength
    ensures !(k <= r.limit && Boundary(r.s, k) && r.dict.IsWord(r.s, p, k))
  {
    hide Dictionary.Words, Dictionary.IsWord, PairAt;
    var all := r.dict.Words(r.s, p, p, 0, r.limit - p);
    WordsAscend(r.dict, r.s, p, p, 0, r.limit - p);
    WordLengths(r.dict, r.s, p, r.limit - p, k - p);
  }

  /** As many words are shorter than a word as come before it in the list. */
  lemma {:induction false} ShorterCount(r: Range, p: nat, j: nat)
    requires r.Valid() && Boundary(r.s, p) && p < r.limit
    requires j < |r.dict.Words(r.s, p, p, 0, r.limit - p)|
    ensures |ShorterWords(r, p, p + r.dict.Words(r.s, p, p, 0, r.limit - p)[j].cuLength)| == j
  {
    hide Dictionary.Words, Dictionary.IsWord, PairAt;
    var all := r.dict.Words(r.s, p, p, 0, r.limit - p);
    var e := p + all[j].cuLength;
    var shorter := ShorterWords(r, p, e);
    if j > 0 {
      var d := p + all[j - 1].cuLength;
      ShorterCount(r, p, j - 1);
      WordLengths(r.dict, r.s, p, r.limit - p, all[j - 1].cuLength);
      assert all[j - 1] in all && all[j - 1].cuLength < all[j].cuLength by {
        WordsAscend(r.dict, r.s, p, p, 0, r.limit - p);
      }
      forall k: nat | d < k < e
        ensures k !in shorter
      {
        NoneBetween(r, p, j, k);
      }
      assert shorter == ShorterWords(r, p, d) + {d};
    } else {
      forall k: nat | p < k < e
        ensures k !in shorter
      {
        NoneBetween(r, p, 0, k);
      }
      assert shorter == {};
    }
  }

  /** The words after a candidate. */
  lemma FollowedInNumbers(r: Range, p: nat, j: nat)
    requires r.Valid() && Boundary(r.s, p) && p < r.limit && j < |r.Candidates(p)| && r.End(p, j) < r.limit
    ensures r.Followed(p, j) <==> WordFrom(r, r.End(p, j))
    ensures r.FollowedTwice(p, j) <==> TwoMore(r, r.End(p, j))
  {
    hide Range.Candidates, Range.End, IsCandidate, WordFrom, PairAt;
    var e := r.End(p, j);
    CandidateEnd(r, p, j);
    CandidatesAreWords(r, e);
    CandidateEnds(r, e);
    var n := |r.Candidates(e)|;
    forall k: nat | k < n
      ensures r.End(e, k) <= r.End(e, n - 1) <= r.limit
      ensures r.End(e, k) < r.limit ==> (r.Candidates(r.End(e, k)) != [] <==> WordFrom(r, r.End(e, k)))
    {
      CandidateEnd(r, e, k);
      CandidateEnd(r, e, n - 1);
      if k < n - 1 {
        EndsOrdered(r, e, k, n - 1);
      }
      if r.End(e, k) < r.limit {
        CandidatesAreWords(r, r.End(e, k));
      }
    }
    NoneFromEnd(r);
  }

  lemma NoneFromEnd(r: Range)
    ensures !WordFrom(r, r.limit)
  {
  }

  /** Text is not looked at if it has at most 4 code points, for Thai, or fewer than 4 code units, for the other scripts. */
  lemma ShortRange(e: DictionaryBreakEngine, script: Script, letters: set<int>, marks: set<int>, s: seq<Unit>, from: nat, to: nat)
    requires e.rules == script.Rules(letters, marks) && Boundary(s, from) && Boundary(s, to) && from <= to
    ensures e.TooShort(s, from, to) <==> if script.Thai? then |Decode(s[from..to])| <= 4 else to - from < 4
  {
    hide Decode, PairAt;
    AfterCount(s, from, to, 4);
  }

  lemma {:induction false} AfterCount(s: seq<Unit>, from: nat, to: nat, n: nat)
    requires Boundary(s, from) && Boundary(s, to) && from <= to
    ensures After(s, from, n) >= to <==> |Decode(s[from..to])| <= n
    decreases n
  {
    hide Decode, PairAt, Next;
    if from < to {
      BoundaryStep(s, from);
      BoundaryOrder(s, from, to);
      MoreCodePoints(s, from, to);
      if n > 0 {
        AfterCount(s, Next(s, from), to, n - 1);
      }
    } else {
      EmptyCount(s, from);
    }
  }
}
