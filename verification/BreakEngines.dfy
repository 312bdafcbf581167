/** The Thai, Lao, Burmese and Khmer break engines, with three cached lists of candidate words. */
module BreakEngines {
  import opened Utf16
  import opened UText
  import opened DictionaryMatcher
  import opened WordBreaks

  const LOOKAHEAD := 3
  const MIN_WORD_SPAN := 4

  class UStack {
    var elements: seq<int>

    constructor ()
      ensures elements == []
    {
      elements := [];
    }

    method Push(i: int)
      modifies this
      ensures elements == old(elements) + [i]
    {
      elements := elements + [i];
    }

    /** The top element, or 0. */
    function Peeki(): int
      reads this
    {
      if elements == [] then 0 else elements[|elements| - 1]
    }

    method Popi() returns (i: int)
      modifies this
      ensures i == old(Peeki())
      ensures elements == if old(elements) == [] then [] else old(elements)[..|old(elements)| - 1]
    {
      i := Peeki();
      if elements != [] {
        elements := elements[..|elements| - 1];
      }
    }
  }

  /** The candidate words at one position, and which of them is looked at and which is preferred. */
  class PossibleWord {
    var list: seq<Candidate>
    var prefix: nat
    var offset: int
    var mark: int
    var current: int

    /** What is cached for the offset is what the dictionary says there. */
    ghost predicate Cached(r: Range)
      reads this
    {
      || offset == -1
      || (0 <= offset <= |r.s| && Boundary(r.s, offset) && list == r.Candidates(offset) && prefix == r.LongestPrefix(offset))
    }

    ghost predicate At(r: Range, p: nat)
      reads this
    {
      && p <= |r.s| && offset == p && Boundary(r.s, p) && list == r.Candidates(p) && prefix == r.LongestPrefix(p)
      && (list != [] ==> 0 <= mark < |list| && 0 <= current < |list|)
    }

    constructor ()
      ensures offset == -1
    {
      list, prefix, offset, mark, current := [], 0, -1, 0, 0;
    }

    /** Fills the list if needed, selects the longest candidate and goes to its end. */
    method Candidates(text: UText, dict: BytesDictionaryMatcher, rangeEnd: nat, ghost r: Range) returns (count: nat)
      requires dict.Valid() && text.Valid() && Cached(r)
      requires r.s == text.s && r.limit == rangeEnd && r.dict == dict.Dict() && r.Valid() && text.pos < rangeEnd
      modifies this, text`pos
      ensures At(r, old(text.pos)) && count == |list|
      ensures text.Valid() && text.pos <= rangeEnd
      ensures if count == 0 then text.pos == old(text.pos)
              else text.pos == r.End(old(text.pos), count - 1) && mark == current == count - 1
    {
      hide Dictionary.Words, Dictionary.PrefixLength, PairAt, BytesDictionaryMatcher.Valid, Take;
      var start := text.pos;
      if start != offset {
        offset := start;
        list, prefix := dict.Matches(text, rangeEnd - start, POSSIBLE_WORD_LIST_MAX);
        if |list| == 0 {
          text.SetNativeIndex(start);
        }
      }
      count := |list|;
      if count > 0 {
        CandidateEnd(r, start, count - 1);
        text.SetNativeIndex(start + list[count - 1].cuLength);
      }
      current := count - 1;
      mark := current;
    }

    /** Goes to the end of the preferred candidate. */
    method AcceptMarked(text: UText, ghost r: Range, ghost p: nat) returns (length: nat)
      requires At(r, p) && list != [] && text.s == r.s && r.Valid() && p < r.limit
      modifies text`pos
      ensures text.Valid() && text.pos == r.End(p, mark) == p + length
    {
      CandidateEnd(r, p, mark);
      text.SetNativeIndex(offset + list[mark].cuLength);
      length := list[mark].cuLength;
    }

    /** Goes to the end of the next shorter candidate, if there is one. */
    method BackUp(text: UText, ghost r: Range, ghost p: nat) returns (more: bool)
      requires At(r, p) && list != [] && text.s == r.s && r.Valid() && p < r.limit && text.Valid()
      modifies this`current, text`pos
      ensures more == (old(current) > 0) && current == (if more then old(current) - 1 else old(current))
      ensures text.Valid() && text.pos == if more then r.End(p, current) else old(text.pos)
    {
      if current > 0 {
        current := current - 1;
        CandidateEnd(r, p, current);
        text.SetNativeIndex(offset + list[current].cuLength);
        return true;
      }
      more := false;
    }
  }

  /** A break engine for one script. */
  class DictionaryBreakEngine {
    const dictionary: BytesDictionaryMatcher
    const rules: Rules

    ghost predicate Valid() {
      dictionary.Valid() && rules.rootCombineThreshold > 0
    }

    constructor (dict: BytesDictionaryMatcher, scriptRules: Rules)
      requires dict.Valid() && scriptRules.rootCombineThreshold > 0
      ensures Valid() && dictionary == dict && rules == scriptRules
    {
      dictionary, rules := dict, scriptRules;
    }

    /** The text up to rangeEnd, with this dictionary and these rules. */
    ghost function RangeOf(text: UText, rangeEnd: nat): Range {
      Range(text.s, rangeEnd, dictionary.Dict(), rules)
    }

    /** Chooses among several candidates for the first word, by looking for two more words after it. */
    method FindBest(text: UText, first: PossibleWord, second: PossibleWord, third: PossibleWord,
                    rangeEnd: nat, ghost r: Range, ghost p: nat)
      requires Valid() && text.Valid() && r == RangeOf(text, rangeEnd) && r.Valid() && p < rangeEnd
      requires first != second && second != third && first != third
      requires first.At(r, p) && second.Cached(r) && third.Cached(r)
      requires first.list != [] && first.mark == first.current == |first.list| - 1 && text.pos == r.End(p, first.current)
      modifies first`mark, first`current, second, third, text`pos
      ensures first.At(r, p) && second.Cached(r) && third.Cached(r)
      ensures first.mark == r.Chosen(p)
    {
      hide Range.Candidates, Range.End, Range.FollowedTwice, Range.Followed, Range.LongestPrefix, Range.Choose,
        Range.LeadsOn, Boundary, BytesDictionaryMatcher.Valid;
      ChosenAtLimit(r, p);
      if text.pos >= rangeEnd {
        return;
      }
      while true
        invariant text.Valid() && first.At(r, p) && second.Cached(r) && third.Cached(r)
        invariant text.pos == r.End(p, first.current) < rangeEnd
        invariant r.Choose(p, first.current + 1, first.mark) == r.Chosen(p)
        modifies first`mark, first`current, second, third, text`pos
        decreases first.current
      {
        ghost var q := text.pos;
        ghost var was := first.mark;
        var count := second.Candidates(text, dictionary, rangeEnd, r);
        var leadsOn := false;
        if count > 0 {
          first.mark := first.current;
          leadsOn := FollowingWords(text, second, third, rangeEnd, r, q);
        }
        ChooseStep(r, p, first.current, was);
        if leadsOn {
          break;
        }
        var more := first.BackUp(text, r, p);
        if !more {
          break;
        }
        ShorterEnd(r, p, first.current);
      }
    }

    /** Does the second word reach the end, or does a third word follow one of its candidates? */
    method FollowingWords(text: UText, second: PossibleWord, third: PossibleWord,
                          rangeEnd: nat, ghost r: Range, ghost q: nat)
      returns (leadsOn: bool)
      requires Valid() && text.Valid() && r == RangeOf(text, rangeEnd) && r.Valid() && q < rangeEnd && second != third
      requires second.At(r, q) && second.list != [] && third.Cached(r)
      requires second.current == |second.list| - 1 && text.pos == r.End(q, second.current)
      modifies second`current, third, text`pos
      ensures second.At(r, q) && third.Cached(r) && text.Valid()
      ensures leadsOn == r.LeadsOn(q)
    {
      hide Range.Candidates, Range.End, Range.LongestPrefix, Boundary, BytesDictionaryMatcher.Valid;
      if text.pos >= rangeEnd {
        return true;
      }
      leadsOn := false;
      while true
        invariant text.Valid() && second.At(r, q) && third.Cached(r) && !leadsOn
        invariant text.pos == r.End(q, second.current) < rangeEnd
        invariant forall k: nat :: second.current < k < |second.list| ==> r.Candidates(r.End(q, k)) == []
        modifies second`current, third, text`pos
        decreases second.current
      {
        ghost var k: nat := second.current;
        var count := third.Candidates(text, dictionary, rangeEnd, r);
        if count > 0 {
          assert r.Candidates(r.End(q, k)) != [];
          return true;
        }
        assert r.Candidates(r.End(q, k)) == [];
        var more := second.BackUp(text, r, q);
        if !more {
          break;
        }
        ShorterEnd(r, q, second.current);
      }
    }

    /** Takes the word at the text position, if there is one. */
    method TakeWord(text: UText, words: seq<PossibleWord>, wordsFound: nat, rangeEnd: nat, ghost r: Range)
      returns (cuWordLength: nat, cpWordLength: nat, found: nat)
      requires Valid() && text.Valid() && r == RangeOf(text, rangeEnd) && r.Valid() && text.pos < rangeEnd
      requires Ring(words, r)
      modifies words, text`pos
      ensures Ring(words, r) && text.Valid()
      ensures text.pos == r.WordEnd(old(text.pos)) == old(text.pos) + cuWordLength
      ensures cpWordLength == r.WordLength(old(text.pos))
      ensures found == if cuWordLength == 0 then wordsFound else wordsFound + 1
    {
      hide Range.Candidates, Range.End, Range.LongestPrefix, Range.Choose, Range.LeadsOn,
        Boundary, BytesDictionaryMatcher.Valid;
      cuWordLength, cpWordLength, found := 0, 0, wordsFound;
      ghost var p := text.pos;
      var first := words[wordsFound % LOOKAHEAD];
      var candidates := first.Candidates(text, dictionary, rangeEnd, r);
      if candidates > 0 {
        if candidates > 1 {
          FindBest(text, first, words[(wordsFound + 1) % LOOKAHEAD], words[(wordsFound + 2) % LOOKAHEAD], rangeEnd, r, p);
        } else {
          OnlyChoice(r, p);
        }
        cuWordLength := first.AcceptMarked(text, r, p);
        cpWordLength := first.list[first.mark].cpLength;
        found := found + 1;
      }
    }

    /** Passes over text which is not in the dictionary. */
    method Resynchronize(text: UText, word: PossibleWord, rangeEnd: nat, ghost r: Range) returns (chars: nat)
      requires Valid() && text.Valid() && r == RangeOf(text, rangeEnd) && r.Valid() && text.pos < rangeEnd
      requires word.Cached(r)
      modifies word, text`pos
      ensures word.Cached(r) && text.Valid()
      ensures text.pos == r.Resynchronized(old(text.pos)) == old(text.pos) + chars
    {
      hide Range.Candidates, Range.LongestPrefix, PairAt, CodePointAt, Next, BytesDictionaryMatcher.Valid;
      var start := text.pos;
      var remaining := rangeEnd - start;
      chars := 0;
      while true
        invariant text.Valid() && word.Cached(r) && text.pos == start + chars < rangeEnd && remaining == rangeEnd - text.pos
        invariant r.Resynchronized(start) == r.Resynchronized(text.pos)
        modifies word, text`pos
        decreases remaining
      {
        var pcIndex := text.pos;
        BoundaryStep(text.s, pcIndex);
        var pc := text.Next32();
        var pcSize := text.pos - pcIndex;
        chars := chars + pcSize;
        remaining := remaining - pcSize;
        if remaining <= 0 {
          break;
        }
        var uc := text.Current32();
        if pc in rules.endWordSet && uc in rules.beginWordSet {
          var candidates := word.Candidates(text, dictionary, rangeEnd, r);
          text.SetNativeIndex(start + chars);
          if candidates > 0 {
            break;
          }
        }
      }
    }

    /** Combines the word which has just been taken, or nothing, with the text after it. */
    method Combine(text: UText, words: seq<PossibleWord>, wordsFound: nat, cuLength: nat, cpWordLength: nat,
                   current: nat, rangeEnd: nat, ghost r: Range)
      returns (cuWordLength: nat, found: nat)
      requires Valid() && text.Valid() && r == RangeOf(text, rangeEnd) && r.Valid() && current < rangeEnd
      requires Ring(words, r) && Boundary(text.s, current)
      requires text.pos == r.WordEnd(current) == current + cuLength && cpWordLength == r.WordLength(current)
      modifies words, text`pos
      ensures Ring(words, r) && text.Valid() && text.pos == r.Combined(current) == current + cuWordLength
      ensures found == if cuLength == 0 then wordsFound + 1 else wordsFound
    {
      hide Range.Candidates, Range.LongestPrefix, Range.WordEnd, Range.WordLength, Range.Resynchronized,
        Boundary, BytesDictionaryMatcher.Valid;
      cuWordLength, found := cuLength, wordsFound;
      NoWord(r, current);
      if text.pos < rangeEnd && cpWordLength < rules.rootCombineThreshold {
        var next := words[found % LOOKAHEAD];
        var candidates := next.Candidates(text, dictionary, rangeEnd, r);
        if candidates == 0 && (cuWordLength == 0 || next.prefix < rules.prefixCombineThreshold) {
          var chars := Resynchronize(text, words[(found + 1) % LOOKAHEAD], rangeEnd, r);
          if cuWordLength == 0 {
            found := found + 1;
          }
          cuWordLength := cuWordLength + chars;
        } else {
          text.SetNativeIndex(current + cuWordLength);
        }
      }
    }

    /** Never stops before a mark. */
    method SkipMarks(text: UText, rangeEnd: nat, ghost r: Range) returns (length: nat)
      requires text.Valid() && r == RangeOf(text, rangeEnd) && r.Valid()
      modifies text`pos
      ensures text.Valid() && text.pos == r.AfterMarks(old(text.pos)) == old(text.pos) + length
    {
      hide PairAt, CodePointAt, Next;
      length := 0;
      while text.pos < rangeEnd && text.Current32() in rules.markSet
        invariant text.Valid() && text.pos == old(text.pos) + length
        invariant r.AfterMarks(text.pos) == r.AfterMarks(old(text.pos))
        decreases |text.s| - text.pos
      {
        var currPos := text.pos;
        BoundaryStep(text.s, currPos);
        var c := text.Next32();
        length := length + (text.pos - currPos);
      }
    }

    /** Adds Thai suffix characters to the word, if no word starts with them. */
    method AddSuffixes(text: UText, word: PossibleWord, current: nat, cuLength: nat, rangeEnd: nat, ghost r: Range)
      returns (cuWordLength: nat)
      requires Valid() && text.Valid() && r == RangeOf(text, rangeEnd) && r.Valid() && word.Cached(r)
      requires rules.suffixes && text.pos == current + cuLength
      modifies word, text`pos
      ensures word.Cached(r) && text.Valid()
      ensures cuLength > 0 ==> text.pos == r.AfterSuffixes(old(text.pos))
      ensures cuLength == 0 ==> text.pos == old(text.pos)
      ensures text.pos == current + cuWordLength
    {
      hide Range.Candidates, Range.LongestPrefix, PairAt, CodePointAt, Next, Previous, BytesDictionaryMatcher.Valid,
        Range.AfterPaiyannoi, Range.AfterMaiyamok;
      cuWordLength := cuLength;
      if text.pos < rangeEnd && cuWordLength > 0 {
        var candidates := word.Candidates(text, dictionary, rangeEnd, r);
        if candidates == 0 && text.Current32() in {THAI_PAIYANNOI, THAI_MAIYAMOK} {
          ghost var q := text.pos;
          var uc;
          cuWordLength, uc := AddPaiyannoi(text, cuWordLength, r);
          PaiyannoiOnly(r, q);
          if uc == THAI_MAIYAMOK {
            cuWordLength := AddMaiyamok(text, cuWordLength, r);
          } else {
            NoMaiyamok(r, text.pos);
          }
        } else {
          if candidates == 0 {
            NoSuffix(r, text.pos);
          }
          text.SetNativeIndex(current + cuWordLength);
        }
      } else if cuWordLength > 0 {
        NoWordAt(r, text.pos);
      }
    }

    method AddPaiyannoi(text: UText, cuLength: nat, ghost r: Range) returns (cuWordLength: nat, uc: int)
      requires text.Valid() && text.s == r.s && 0 < text.pos < |text.s|
      modifies text`pos
      ensures text.Valid() && text.pos == r.AfterPaiyannoi(old(text.pos))
      ensures cuWordLength - cuLength == text.pos - old(text.pos) && uc == text.Current32()
    {
      hide PairAt, CodePointAt;
      uc, cuWordLength := text.Current32(), cuLength;
      if uc == THAI_PAIYANNOI {
        BoundaryStep(text.s, text.pos);
        var before := text.Previous32();
        if before !in {THAI_PAIYANNOI, THAI_MAIYAMOK} {
          before := text.Next32();
          var paiyannoiIndex := text.pos;
          before := text.Next32();
          cuWordLength := cuWordLength + (text.pos - paiyannoiIndex);
          uc := text.Current32();
        } else {
          before := text.Next32();
        }
      }
    }

    method AddMaiyamok(text: UText, cuLength: nat, ghost r: Range) returns (cuWordLength: nat)
      requires text.Valid() && text.s == r.s && 0 < text.pos && text.Current32() == THAI_MAIYAMOK
      modifies text`pos
      ensures text.Valid() && text.pos == r.AfterMaiyamok(old(text.pos))
      ensures cuWordLength - cuLength == text.pos - old(text.pos)
    {
      hide PairAt, CodePointAt;
      cuWordLength := cuLength;
      BoundaryStep(text.s, text.pos);
      var before := text.Previous32();
      if before != THAI_MAIYAMOK {
        before := text.Next32();
        var maiyamokIndex := text.pos;
        before := text.Next32();
        cuWordLength := cuWordLength + (text.pos - maiyamokIndex);
      } else {
        before := text.Next32();
      }
    }

    /** Finds the next break. */
    method NextBreak(text: UText, words: seq<PossibleWord>, wordsFound: nat, rangeEnd: nat, ghost r: Range)
      returns (cuWordLength: nat, found: nat)
      requires Valid() && text.Valid() && r == RangeOf(text, rangeEnd) && r.Valid() && text.pos < rangeEnd
      requires Ring(words, r)
      modifies words, text`pos
      ensures Ring(words, r) && text.Valid() && found == wordsFound + 1 && cuWordLength > 0
      ensures text.pos == r.BreakAfter(old(text.pos)) == old(text.pos) + cuWordLength
    {
      hide Range.Candidates, Range.LongestPrefix, Range.Combined, Range.AfterMarks, Range.WordEnd, Range.WordLength,
        PairAt, CodePointAt, Next, BytesDictionaryMatcher.Valid;
      var current := text.pos;
      r.CombinedProgress(current);
      BreakParts(r, current);
      var cpWordLength;
      cuWordLength, cpWordLength, found := TakeWord(text, words, wordsFound, rangeEnd, r);
      cuWordLength, found := Combine(text, words, found, cuWordLength, cpWordLength, current, rangeEnd, r);
      var length := SkipMarks(text, rangeEnd, r);
      cuWordLength := cuWordLength + length;
      if rules.suffixes {
        cuWordLength := AddSuffixes(text, words[found % LOOKAHEAD], current, cuWordLength, rangeEnd, r);
      }
    }

    /** Are there not enough characters for two words? Thai counts code points, the others code units. */
    ghost predicate TooShort(s: seq<Unit>, rangeStart: nat, rangeEnd: nat)
      requires rangeStart <= |s|
    {
      if rules.suffixes then After(s, rangeStart, MIN_WORD_SPAN) >= rangeEnd else rangeEnd - rangeStart < MIN_WORD_SPAN
    }

    /** Pushes the breaks inside the range, and returns how many there are. */
    method DivideUpDictionaryRange(text: UText, rangeStart: nat, rangeEnd: nat, foundBreaks: UStack)
      returns (wordsFound: nat)
      requires Valid() && text.Valid() && Boundary(text.s, rangeStart) && Boundary(text.s, rangeEnd)
      modifies text`pos, foundBreaks
      ensures text.Valid()
      ensures var inner := if TooShort(text.s, rangeStart, rangeEnd) then [] else InnerBreaks(RangeOf(text, rangeEnd), rangeStart);
        wordsFound == |inner| && foundBreaks.elements == old(foundBreaks.elements) + inner
    {
      hide Range.Candidates, Range.BreakAfter, Range.Breaks, PairAt, BytesDictionaryMatcher.Valid;
      ghost var r := RangeOf(text, rangeEnd);
      wordsFound := 0;
      if rules.suffixes {
        text.SetNativeIndex(rangeStart);
        text.MoveIndex32(MIN_WORD_SPAN);
        if text.pos >= rangeEnd {
          return;
        }
      } else if rangeEnd - rangeStart < MIN_WORD_SPAN {
        return;
      }
      wordsFound := PushBreaks(text, rangeStart, rangeEnd, foundBreaks);
      BreaksInside(r, rangeStart);
      if foundBreaks.Peeki() >= rangeEnd {
        var popped := foundBreaks.Popi();
        wordsFound := wordsFound - 1;
      }
    }

    /** Pushes all breaks up to the first which is not before the end of the range. */
    method PushBreaks(text: UText, rangeStart: nat, rangeEnd: nat, foundBreaks: UStack) returns (wordsFound: nat)
      requires Valid() && text.Valid() && Boundary(text.s, rangeStart) && Boundary(text.s, rangeEnd)
      modifies text`pos, foundBreaks
      ensures text.Valid()
      ensures var all := RangeOf(text, rangeEnd).Breaks(rangeStart);
        wordsFound == |all| && foundBreaks.elements == old(foundBreaks.elements) + all
    {
      hide Range.Candidates, Range.BreakAfter, Range.Breaks, PairAt, BytesDictionaryMatcher.Valid, PossibleWord.Cached;
      ghost var r := RangeOf(text, rangeEnd);
      ghost var before, all := foundBreaks.elements, r.Breaks(rangeStart);
      var words := NewRing(r);
      wordsFound := 0;
      ghost var done: seq<nat> := [];
      text.SetNativeIndex(rangeStart);
      while text.pos < rangeEnd
        invariant text.Valid() && Ring(words, r) && forall i :: 0 <= i < LOOKAHEAD ==> fresh(words[i])
        invariant wordsFound == |done| && foundBreaks.elements == before + done
        invariant all == done + r.Breaks(text.pos)
        modifies words, text`pos, foundBreaks
        decreases rangeEnd - text.pos
      {
        var current := text.pos;
        BreaksStep(r, current);
        var cuWordLength;
        cuWordLength, wordsFound := NextBreak(text, words, wordsFound, rangeEnd, r);
        if cuWordLength > 0 {
          foundBreaks.Push(current + cuWordLength);
          DoneStep(all, done, current + cuWordLength, r.Breaks(text.pos));
          done := done + [current + cuWordLength];
        }
      }
      BreaksStep(r, text.pos);
    }

    method NewRing(ghost r: Range) returns (words: seq<PossibleWord>)
      ensures Ring(words, r) && forall i :: 0 <= i < LOOKAHEAD ==> fresh(words[i])
    {
      var slot0 := new PossibleWord();
      var slot1 := new PossibleWord();
      var slot2 := new PossibleWord();
      words := [slot0, slot1, slot2];
    }
  }

  /** Three lists of candidates, each of them up to date for its position. */
  ghost predicate Ring(words: seq<PossibleWord>, r: Range)
    reads words
  {
    && |words| == LOOKAHEAD && words[0] != words[1] && words[1] != words[2] && words[0] != words[2]
    && forall i :: 0 <= i < LOOKAHEAD ==> words[i].Cached(r)
  }

  lemma DoneStep(all: seq<nat>, done: seq<nat>, b: nat, rest: seq<nat>)
    requires all == done + ([b] + rest)
    ensures all == (done + [b]) + rest
  {
  }

  lemma BreaksStep(r: Range, p: nat)
    requires r.Valid()
    ensures r.Breaks(p) == if p >= r.limit then [] else [r.BreakAfter(p)] + r.Breaks(r.BreakAfter(p))
  {
  }

  lemma BreakParts(r: Range, p: nat)
    requires r.Valid() && p < r.limit
    ensures r.BreakAfter(p) == r.AfterSuffixes(r.AfterMarks(r.Combined(p)))
    ensures !r.rules.suffixes ==> r.BreakAfter(p) == r.AfterMarks(r.Combined(p))
  {
  }

  lemma PaiyannoiOnly(r: Range, q: nat)
    requires 0 < q < r.limit <= |r.s| && r.rules.suffixes && r.Candidates(q) == []
    ensures r.AfterSuffixes(q) == r.AfterMaiyamok(r.AfterPaiyannoi(q))
  {
  }

  lemma NoMaiyamok(r: Range, q: nat)
    requires 0 < q <= |r.s| && (q < |r.s| ==> CodePointAt(r.s, q) != THAI_MAIYAMOK)
    ensures r.AfterMaiyamok(q) == q
  {
  }

  lemma NoSuffix(r: Range, q: nat)
    requires 0 < q < r.limit <= |r.s| && CodePointAt(r.s, q) !in {THAI_PAIYANNOI, THAI_MAIYAMOK}
    ensures r.AfterSuffixes(q) == q
  {
  }

  lemma NoWordAt(r: Range, q: nat)
    requires 0 < q && r.limit <= |r.s|
    ensures q >= r.limit ==> r.AfterSuffixes(q) == q
  {
  }

  lemma OnlyChoice(r: Range, p: nat)
    requires p <= |r.s| && |r.Candidates(p)| == 1
    ensures r.Chosen(p) == 0
  {
  }

  lemma NoWord(r: Range, p: nat)
    requires p <= |r.s|
    ensures r.WordEnd(p) == p <==> r.Candidates(p) == []
    ensures r.Candidates(p) == [] ==> r.WordLength(p) == 0
  {
  }

  lemma ChosenAtLimit(r: Range, p: nat)
    requires p <= |r.s| && r.Candidates(p) != []
    ensures var n := |r.Candidates(p)|;
      r.Chosen(p) == if r.End(p, n - 1) >= r.limit then n - 1 else r.Choose(p, n, n - 1)
  {
  }

  lemma ChooseStep(r: Range, p: nat, c: nat, mark: nat)
    requires p <= |r.s| && c < |r.Candidates(p)| && mark < |r.Candidates(p)|
    ensures r.Choose(p, c + 1, mark) ==
      (if r.LeadsOn(r.End(p, c)) then c
       else r.Choose(p, c, if r.Candidates(r.End(p, c)) != [] then c else mark))
    ensures r.LeadsOn(r.End(p, c)) ==> r.Candidates(r.End(p, c)) != []
    ensures c == 0 ==> forall m: nat :: m < |r.Candidates(p)| ==> r.Choose(p, 0, m) == m
  {
  }

  /** A shorter candidate ends earlier. */
  lemma ShorterEnd(r: Range, p: nat, j: nat)
    requires Boundary(r.s, p) && j + 1 < |r.Candidates(p)|
    ensures r.End(p, j) < r.End(p, j + 1)
  {
    FirstWordsShortest(r.dict, r.s, p, r.limit - p, POSSIBLE_WORD_LIST_MAX);
  }
}
