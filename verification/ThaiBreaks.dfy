/** Exactly when a break of the Thai engine stands in front of a mark, or goes beyond the range. */
module ThaiBreaks {
  import opened Trie
  import opened Utf16
  import opened DictionaryMatcher
  import opened WordBreaks

  /** An ellision character at m which does not follow a suffix character. */
  ghost predicate TakesPaiyannoi(r: Range, m: nat) {
    && 0 < m < |r.s| && CodePointAt(r.s, m) == THAI_PAIYANNOI
    && r.CodePointBefore(m) !in {THAI_PAIYANNOI, THAI_MAIYAMOK}
  }

  /** A repeat character at m which does not follow another one. */
  ghost predicate TakesMaiyamok(r: Range, m: nat) {
    0 < m < |r.s| && CodePointAt(r.s, m) == THAI_MAIYAMOK && r.CodePointBefore(m) != THAI_MAIYAMOK
  }

  /** The end of the suffix characters which can be taken at m: an ellision character, a repeat character, or both. */
  ghost function SuffixEnd(r: Range, m: nat): (e: nat)
    requires m <= |r.s|
    ensures m <= e <= |r.s|
  {
    if TakesPaiyannoi(r, m) then
      var n := Next(r.s, m);
      if n < |r.s| && CodePointAt(r.s, n) == THAI_MAIYAMOK then Next(r.s, n) else n
    else if TakesMaiyamok(r, m) then Next(r.s, m)
    else m
  }

  /** Are suffix characters looked at, at the end m of a word with its marks? */
  ghost predicate LooksForSuffixes(r: Range, m: nat) {
    r.rules.suffixes && m < r.limit <= |r.s| && r.Candidates(m) == []
  }

  /** The end of a word with its marks. */
  ghost function WordEndAfterMarks(r: Range, p: nat): nat
    requires r.Valid() && p < r.limit
  {
    r.AfterMarks(r.Combined(p))
  }

  lemma SuffixesTaken(r: Range, p: nat)
    requires r.Valid() && Boundary(r.s, p) && p < r.limit
    ensures var m := WordEndAfterMarks(r, p);
      && 0 < m <= r.limit && Boundary(r.s, m) && (m < r.limit ==> CodePointAt(r.s, m) !in r.rules.markSet)
      && r.BreakAfter(p) == if LooksForSuffixes(r, m) then SuffixEnd(r, m) else m
  {
    hide Range.Candidates, Range.Combined, CodePointAt, PairAt;
    CombinedInRange(r, p);
    r.CombinedProgress(p);
    AfterMarksInRange(r, r.Combined(p));
    var m := WordEndAfterMarks(r, p);
    BoundaryStep(r.s, m);
  }

  /** A break stands in front of a mark exactly if suffix characters are taken, and a mark in the range follows them. */
  lemma BreakBeforeMark(r: Range, p: nat)
    requires r.Valid() && Boundary(r.s, p) && p < r.limit
    ensures var m, b := WordEndAfterMarks(r, p), r.BreakAfter(p);
      m <= r.limit && (b < r.limit && CodePointAt(r.s, b) in r.rules.markSet <==>
        && LooksForSuffixes(r, m) && (TakesPaiyannoi(r, m) || TakesMaiyamok(r, m))
        && SuffixEnd(r, m) < r.limit && CodePointAt(r.s, SuffixEnd(r, m)) in r.rules.markSet)
  {
    hide Range.Candidates, Range.Combined, Range.AfterMarks, Range.AfterSuffixes, Range.BreakAfter, CodePointAt;
    SuffixesTaken(r, p);
  }

  /** A break goes beyond the range exactly if the range ends between an ellision character and a repeat character which are taken. */
  lemma BreakBeyond(r: Range, p: nat)
    requires r.Valid() && Boundary(r.s, p) && p < r.limit
    ensures var m, b := WordEndAfterMarks(r, p), r.BreakAfter(p);
      b > r.limit <==>
        && LooksForSuffixes(r, m) && TakesPaiyannoi(r, m) && Next(r.s, m) == r.limit
        && r.limit < |r.s| && CodePointAt(r.s, r.limit) == THAI_MAIYAMOK
  {
    hide Range.Candidates, Range.Combined, Range.AfterMarks, Range.AfterSuffixes, Range.BreakAfter, CodePointAt;
    SuffixesTaken(r, p);
    var m := WordEndAfterMarks(r, p);
    BoundaryStep(r.s, m);
    if m < r.limit {
      BoundaryOrder(r.s, m, r.limit);
      var n := Next(r.s, m);
      BoundaryStep(r.s, n);
      if n < r.limit {
        BoundaryOrder(r.s, n, r.limit);
      }
    }
  }

  /** Is no suffix character in the range followed by a mark in the range? */
  ghost predicate NoMarkedSuffix(r: Range) {
    forall k: nat :: 0 < k < r.limit && k < |r.s| && Boundary(r.s, k) && CodePointAt(r.s, k) in r.rules.markSet ==>
      r.CodePointBefore(k) !in {THAI_PAIYANNOI, THAI_MAIYAMOK}
  }

  /** Does the range end between an ellision character and a repeat character? */
  ghost predicate EndsInSuffixes(r: Range) {
    && 0 < r.limit < |r.s| && r.CodePointBefore(r.limit) == THAI_PAIYANNOI
    && CodePointAt(r.s, r.limit) == THAI_MAIYAMOK
  }

  /** In such text the Thai engine keeps what the other engines keep. */
  lemma {:induction false} PlainTextBreaks(r: Range, p: nat)
    requires r.Valid() && Boundary(r.s, p) && p < r.limit
    ensures var b := r.Breaks(p); var n := |b| - 1;
      && n >= 0 && (!EndsInSuffixes(r) ==> b[n] == r.limit)
      && (NoMarkedSuffix(r) ==>
            forall i :: 0 <= i <= n && b[i] < r.limit ==> CodePointAt(r.s, b[i]) !in r.rules.markSet)
    decreases r.limit - p
  {
    hide Range.BreakAfter, CodePointAt, PairAt, Range.CodePointBefore, EndsInSuffixes;
    var q := r.BreakAfter(p);
    ThaiBreak(r, p);
    BreakInRange(r, p);
    BeyondInSuffixes(r, p);
    if q < r.limit {
      PlainTextBreaks(r, q);
    } else {
      assert r.Breaks(q) == [];
    }
  }

  /** The Thai engine: the breaks are inside the range, and if no suffix character is marked, not in front of a mark or a space. */
  lemma ThaiRangeBreaks(r: Range, p: nat, letters: set<int>, marks: set<int>)
    requires r.rules == ThaiRules(letters, marks) && r.Valid() && Boundary(r.s, p) && p < r.limit
    ensures var inner := InnerBreaks(r, p);
      && (forall i :: 0 <= i < |inner| ==> p < inner[i] < r.limit && Boundary(r.s, inner[i]))
      && (forall i, j :: 0 <= i < j < |inner| ==> inner[i] < inner[j])
      && (!EndsInSuffixes(r) ==> r.Breaks(p) == inner + [r.limit])
      && (NoMarkedSuffix(r) ==>
            forall i :: 0 <= i < |inner| ==> CodePointAt(r.s, inner[i]) !in marks && CodePointAt(r.s, inner[i]) != 0x20)
  {
    hide Range.Breaks, CodePointAt, PairAt, NoMarkedSuffix, EndsInSuffixes;
    BreaksInside(r, p);
    PlainTextBreaks(r, p);
    assert r.rules.markSet == marks + {0x20};
  }

  lemma BeyondInSuffixes(r: Range, p: nat)
    requires r.Valid() && Boundary(r.s, p) && p < r.limit
    ensures r.BreakAfter(p) > r.limit ==> EndsInSuffixes(r)
  {
    hide Range.Candidates, Range.Combined, Range.AfterMarks, Range.AfterSuffixes, Range.BreakAfter, CodePointAt;
    SuffixesTaken(r, p);
    BreakBeyond(r, p);
    BoundaryStep(r.s, WordEndAfterMarks(r, p));
  }

  /** Text of Thai letters without surrogates. */
  ghost predicate Plain(s: seq<Unit>) {
    forall i :: 0 <= i < |s| ==> s[i] < 0xd800
  }

  lemma {:induction false} PlainDecode(s: seq<Unit>)
    requires Plain(s)
    ensures |Decode(s)| == |s| && forall i :: 0 <= i < |s| ==> Decode(s)[i] == s[i] as int
  {
    if s != [] {
      PlainDecode(s[1..]);
    }
  }

  const KO_KAI := 0x0e01
  const MAI_HAN_AKAT := 0x0e31

  /** A dictionary of one word of three letters, and text which starts with that word. */
  function OneWord(v: int): Dictionary {
    Dictionary([Pair([1, 1, 1], v)], Offset(0x0e00))
  }

  ghost predicate StartsWithWord(r: Range, v: int) {
    && Plain(r.s) && r.dict == OneWord(v) && 3 < r.limit <= |r.s| && r.rules.rootCombineThreshold == 3
    && r.s[0] as int == r.s[1] as int == r.s[2] as int == KO_KAI && r.s[3] as int != KO_KAI
  }

  /** Only the three letters are a word. */
  lemma OnlyWord(r: Range, v: int, start: nat, end: nat)
    requires StartsWithWord(r, v) && start in {0, 3} && start <= end <= |r.s|
    ensures r.dict.IsWord(r.s, start, end) <==> start == 0 && end == 3
  {
    var d, u := r.dict, r.s[start..end];
    PlainDecode(u);
    assert forall i :: 0 <= i < |u| ==> u[i] == r.s[start + i];
    var key := Key(d.transform, Decode(u));
    assert d.words[0] in d.words && d.words[0].key == [1, 1, 1];
    assert start == 0 && end == 3 ==> key == [1, 1, 1];
    assert start == 3 && u != [] ==> key[0] != 1;
  }

  /** The first word is followed by nothing which is in the dictionary. */
  lemma WordThenNothing(r: Range, v: int)
    requires StartsWithWord(r, v)
    ensures r.Candidates(3) == [] && r.Combined(0) == 3
  {
    hide Dictionary.Words, Dictionary.IsWord, Dictionary.ValueOf, Decode, Next;
    NoCandidates(r, v);
    var all := r.dict.Words(r.s, 0, 0, 0, r.limit);
    FirstWordsShortest(r.dict, r.s, 0, r.limit, POSSIBLE_WORD_LIST_MAX);
    WordLengths(r.dict, r.s, 0, r.limit, 3);
    OnlyWord(r, v, 0, 3);
    forall i | 0 <= i < |all|
      ensures all[i].cuLength == 3 && all[i].cpLength == 3
    {
      WordsSound(r.dict, r.s, 0, 0, 0, r.limit, i);
      OnlyWord(r, v, 0, all[i].cuLength);
      PlainDecode(r.s[0..3]);
    }
    WordsAscend(r.dict, r.s, 0, 0, 0, r.limit);
    var w :| w in all && w.cuLength == 3;
    FirstTwo(all);
    assert |all| == 1;
    assert r.Candidates(0) == all;
  }

  lemma FirstTwo(all: seq<Candidate>)
    requires LengthsAscend(all)
    ensures |all| > 1 ==> all[0].cuLength < all[1].cuLength
  {
  }

  lemma NoCandidates(r: Range, v: int)
    requires StartsWithWord(r, v)
    ensures r.Candidates(3) == []
  {
    hide Dictionary.Words, Dictionary.IsWord, Dictionary.ValueOf, Decode, Next;
    var all := r.dict.Words(r.s, 3, 3, 0, r.limit - 3);
    if all != [] {
      WordsSound(r.dict, r.s, 3, 3, 0, r.limit - 3, 0);
      OnlyWord(r, v, 3, 3 + all[0].cuLength);
      assert false;
    }
  }

  /** A word, an ellision character and a mark: the first break stands in front of the mark. */
  lemma BreakInFrontOfMark(v: int, letters: set<int>)
    ensures var s: seq<Unit> := [0x0e01, 0x0e01, 0x0e01, 0x0e2f, 0x0e31];
      var r := Range(s, 5, OneWord(v), ThaiRules(letters, {MAI_HAN_AKAT}));
      r.Valid() && r.BreakAfter(0) == 4 && CodePointAt(s, 4) in r.rules.markSet
  {
    hide Range.Candidates, Range.Combined, Range.BreakAfter, Decode;
    var s: seq<Unit> := [0x0e01, 0x0e01, 0x0e01, 0x0e2f, 0x0e31];
    var r := Range(s, 5, OneWord(v), ThaiRules(letters, {MAI_HAN_AKAT}));
    WordThenNothing(r, v);
    SuffixesTaken(r, 0);
    assert CodePointAt(s, 3) == THAI_PAIYANNOI && CodePointAt(s, 4) == MAI_HAN_AKAT;
    assert r.AfterMarks(3) == 3;
  }

  /** A word, an ellision character, the end of the range and a repeat character: the break goes beyond the range. */
  lemma BreakBeyondRange(v: int, letters: set<int>, marks: set<int>)
    requires THAI_PAIYANNOI !in marks
    ensures var s: seq<Unit> := [0x0e01, 0x0e01, 0x0e01, 0x0e2f, 0x0e46];
      var r := Range(s, 4, OneWord(v), ThaiRules(letters, marks));
      r.Valid() && r.BreakAfter(0) == 5
  {
    hide Range.Candidates, Range.Combined, Range.BreakAfter, Decode;
    var s: seq<Unit> := [0x0e01, 0x0e01, 0x0e01, 0x0e2f, 0x0e46];
    var r := Range(s, 4, OneWord(v), ThaiRules(letters, marks));
    WordThenNothing(r, v);
    SuffixesTaken(r, 0);
    assert CodePointAt(s, 3) == THAI_PAIYANNOI && CodePointAt(s, 4) == THAI_MAIYAMOK;
    assert r.AfterMarks(3) == 3;
  }
}
