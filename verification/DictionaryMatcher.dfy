/** Finding the dictionary words at a text position, with a serialized trie of transformed code points. */
module DictionaryMatcher {
  import opened Basics
  import opened Trie
  import opened TrieFormat
  import opened Utf16
  import opened UText
  import C = BytesTrie

  /** The transform constant of a dictionary: none, or an offset for its script. */
  datatype Transform = NoTransform | Offset(offset: nat)

  /** The type in bits 24 to 30 of the constant, and the offset in bits 0 to 20. */
  function TransformFrom(constant: int): Transform {
    if constant / 0x100_0000 % 0x80 == 1 then Offset(constant % 0x20_0000) else NoTransform
  }

  /** The value of a code point in a trie key, before it is taken as a byte. */
  function TransformOf(t: Transform, c: int): int {
    match t
    case NoTransform => c
    case Offset(offset) =>
      if c == 0x200d then 0xff
      else if c == 0x200c then 0xfe
      else
        var delta := c - offset;
        if delta < 0 || 0xfd < delta then U_SENTINEL else delta
  }

  /** The byte of a code point in a trie key; a code point which the transform refuses gets the byte 0xff. */
  function KeyByte(t: Transform, c: int): int {
    C.BytesTrie.InByte(TransformOf(t, c))
  }

  /** The trie key of some text. */
  function Key(t: Transform, cps: seq<int>): (r: seq<int>)
    ensures |r| == |cps| && forall i :: 0 <= i < |r| ==> r[i] == KeyByte(t, cps[i])
  {
    seq(|cps|, i requires 0 <= i < |cps| => KeyByte(t, cps[i]))
  }

  datatype Candidate = Candidate(cuLength: nat, cpLength: nat, value: int)

  function Take<T>(s: seq<T>, n: nat): (r: seq<T>)
    ensures |r| <= n && r <= s && (|r| < n ==> r == s)
  {
    if |s| <= n then s else s[..n]
  }

  datatype Dictionary = Dictionary(words: seq<Pair>, transform: Transform)
  {
    /** Is the text s[start..end] a word? */
    ghost predicate IsWord(s: seq<Unit>, start: nat, end: nat)
      requires start <= end <= |s|
    {
      HasKey(words, Key(transform, Decode(s[start..end])))
    }

    /** Does some longer word start with the text s[start..end]? */
    ghost predicate IsPrefix(s: seq<Unit>, start: nat, end: nat)
      requires start <= end <= |s|
    {
      HasLonger(words, Key(transform, Decode(s[start..end])))
    }

    ghost function ValueOf(s: seq<Unit>, start: nat, end: nat): int
      requires start <= end <= |s| && IsWord(s, start, end)
    {
      var p :| p in words && p.key == Key(transform, Decode(s[start..end]));
      p.value
    }

    /** All words which start at start and end after p, up to the code point which reaches maxLength. */
    ghost function Words(s: seq<Unit>, start: nat, p: nat, n: nat, maxLength: int): (r: seq<Candidate>)
      requires start <= p <= |s|
      ensures forall i :: 0 <= i < |r| ==> p - start < r[i].cuLength <= |s| - start && r[i].cpLength > n
      decreases |s| - p
    {
      if p == |s| then []
      else
        var q := Next(s, p);
        Here(s, start, q, n + 1) + if q - start < maxLength then Words(s, start, q, n + 1, maxLength) else []
    }

    /** The word which ends at end, if there is one. */
    ghost function Here(s: seq<Unit>, start: nat, end: nat, n: nat): seq<Candidate>
      requires start <= end <= |s|
    {
      if IsWord(s, start, end) then [Candidate(end - start, n, ValueOf(s, start, end))] else []
    }

    /** How many code points are looked at: up to the first which no longer word continues, or the end or maxLength. */
    ghost function PrefixLength(s: seq<Unit>, start: nat, p: nat, n: nat, maxLength: int): nat
      requires start <= p <= |s|
      decreases |s| - p
    {
      if p == |s| then n
      else
        var q := Next(s, p);
        if IsPrefix(s, start, q) && q - start < maxLength then PrefixLength(s, start, q, n + 1, maxLength) else n + 1
    }

    /** The first words, in order of their length. */
    ghost function FirstWords(s: seq<Unit>, start: nat, maxLength: int, limit: nat): (r: seq<Candidate>)
      requires start <= |s|
      ensures |r| <= limit
      ensures forall i :: 0 <= i < |r| ==> 0 < r[i].cuLength <= |s| - start && r[i].cpLength > 0
    {
      Take(Words(s, start, start, 0, maxLength), limit)
    }
  }

  lemma KeyNext(t: Transform, s: seq<Unit>, start: nat, p: nat)
    requires start <= p < |s| && Boundary(s, start) && Boundary(s, p)
    ensures Key(t, Decode(s[start..Next(s, p)])) == Key(t, Decode(s[start..p])) + [KeyByte(t, CodePointAt(s, p))]
  {
    var u := s[start..];
    assert u[..p - start] == s[start..p] && u[..Next(s, p) - start] == s[start..Next(s, p)];
    DecodeNext(u, p - start);
  }

  /** A prefix which no longer word continues is the last one which can be a word. */
  lemma {:induction false} NoMoreWords(d: Dictionary, s: seq<Unit>, start: nat, stop: nat, p: nat, n: nat, maxLength: int)
    requires start <= stop <= p <= |s| && Boundary(s, start) && Boundary(s, p)
    requires !d.IsPrefix(s, start, stop)
    requires Key(d.transform, Decode(s[start..stop])) <= Key(d.transform, Decode(s[start..p]))
    ensures d.Words(s, start, p, n, maxLength) == []
    decreases |s| - p
  {
    if p < |s| {
      var q := Next(s, p);
      KeyNext(d.transform, s, start, p);
      NoMoreWords(d, s, start, stop, q, n + 1, maxLength);
    }
  }

  class BytesDictionaryMatcher {
    const characters: seq<Byte>
    const transform: Transform

    /** The tree which the bytes stand for. */
    ghost const tree: Node

    ghost predicate Valid() {
      NodeAt(characters, 0, tree) && Sorted(Pairs(tree))
    }

    ghost function Dict(): Dictionary {
      Dictionary(Pairs(tree), transform)
    }

    constructor (bytes: seq<Byte>, transformConstant: int, ghost root: Node)
      requires NodeAt(bytes, 0, root)
      ensures Valid() && characters == bytes && Dict() == Dictionary(Pairs(root), TransformFrom(transformConstant))
    {
      characters, transform, tree := bytes, TransformFrom(transformConstant), root;
      new;
      NodeAtWellFormed(bytes, 0, root);
      PairsSorted(root);
    }

    /** The first words at the text position, up to a limit; the text is left where matching stopped. */
    method Matches(text: UText, maxLength: int, limit: nat) returns (words: seq<Candidate>, prefix: nat)
      requires Valid() && text.Valid()
      modifies text`pos
      ensures text.Valid() && text.pos >= old(text.pos)
      ensures words == Dict().FirstWords(text.s, old(text.pos), maxLength, limit)
      ensures prefix == Dict().PrefixLength(text.s, old(text.pos), old(text.pos), 0, maxLength)
    {
      hide NodeAt, Pairs, Status, Sorted, Dictionary.Words, Dictionary.PrefixLength, Key, Take, Decode, C.BytesTrie.Valid, Matched;
      var bt := new C.BytesTrie(characters, tree);
      var start := text.pos;
      ghost var d, s := Dict(), text.s;
      ghost var done := false;
      ghost var rest := d.Words(s, start, start, 0, maxLength);
      words, prefix := [], 0;
      EmptyKey(transform, s, start);
      NothingMatched(rest, limit);
      while text.pos < |text.s|
        invariant start <= text.pos && text.Valid() && bt.Valid() && bt.bytes == characters && bt.root == tree
        invariant bt.matched == Key(transform, Decode(s[start..text.pos]))
        invariant !done && rest == d.Words(s, start, text.pos, prefix, maxLength)
        invariant Matched(d.Words(s, start, start, 0, maxLength), limit, words, rest)
        invariant d.PrefixLength(s, start, text.pos, prefix, maxLength) == d.PrefixLength(s, start, start, 0, maxLength)
        modifies text`pos, bt
        decreases |text.s| - text.pos
      {
        ghost var p := text.pos;
        KeyNext(transform, s, start, p);
        BoundaryStep(s, p);
        var c := text.Next32();
        var result := bt.Next(TransformOf(transform, c));
        var lengthMatched := text.pos - start;
        ghost var here, more := MatchStep(d, s, start, p, prefix, maxLength, result);
        prefix := prefix + 1;
        if result == FinalValue || result == IntermediateValue {
          words := AddWord(bt, d, s, start, text.pos, Candidate(lengthMatched, prefix, 0), words, limit,
                           d.Words(s, start, start, 0, maxLength), here[0], more);
        }
        assert here == [] ==> [] + more == more;
        rest := more;
        if result == FinalValue || result == NoMatch || lengthMatched >= maxLength {
          done := true;
          break;
        }
      }
      if !done {
        WordsAtEnd(d, s, start, prefix, maxLength);
      }
      AllMatched(d.Words(s, start, start, 0, maxLength), limit, words);
    }

    /** Adds the word which has just been matched, if there is room for it. */
    method AddWord(bt: C.BytesTrie, ghost d: Dictionary, ghost s: seq<Unit>, ghost start: nat, ghost end: nat,
                   lengths: Candidate, was: seq<Candidate>, limit: nat,
                   ghost all: seq<Candidate>, ghost x: Candidate, ghost more: seq<Candidate>)
      returns (words: seq<Candidate>)
      requires bt.Valid() && d.words == Pairs(bt.root) && Sorted(d.words)
      requires Status(d.words, bt.matched) in {FinalValue, IntermediateValue}
      requires start <= end <= |s| && bt.matched == Key(d.transform, Decode(s[start..end])) && d.IsWord(s, start, end)
      requires x == Candidate(lengths.cuLength, lengths.cpLength, d.ValueOf(s, start, end))
      requires Matched(all, limit, was, [x] + more)
      ensures Matched(all, limit, words, more)
    {
      hide NodeAt, Pairs, Status, Sorted, Key, Take;
      words := was;
      if |words| < limit {
        var value := bt.GetValue();
        OneValue(d, s, start, end, value);
        words := words + [lengths.(value := value)];
      }
      TakeOne(all, limit, was, words, x, more);
    }
  }

  lemma WordsAtEnd(d: Dictionary, s: seq<Unit>, start: nat, n: nat, maxLength: int)
    requires start <= |s|
    ensures d.Words(s, start, |s|, n, maxLength) == [] && d.PrefixLength(s, start, |s|, n, maxLength) == n
  {
  }

  lemma EmptyKey(t: Transform, s: seq<Unit>, start: nat)
    requires start <= |s|
    ensures Key(t, Decode(s[start..start])) == []
  {
  }

  /** Are these the first words, as far as there is room for them, when the rest is still to come? */
  ghost predicate Matched(all: seq<Candidate>, limit: nat, words: seq<Candidate>, rest: seq<Candidate>) {
    |words| <= limit && Take(all, limit) == words + Take(rest, limit - |words|)
  }

  lemma NothingMatched(all: seq<Candidate>, limit: nat)
    ensures Matched(all, limit, [], all)
  {
  }

  lemma AllMatched(all: seq<Candidate>, limit: nat, words: seq<Candidate>)
    requires Matched(all, limit, words, [])
    ensures words == Take(all, limit)
  {
  }

  /** One more of the first words, unless there are enough. */
  lemma TakeOne(all: seq<Candidate>, limit: nat, was: seq<Candidate>, words: seq<Candidate>, x: Candidate,
                more: seq<Candidate>)
    requires Matched(all, limit, was, [x] + more)
    requires words == if |was| < limit then was + [x] else was
    ensures Matched(all, limit, words, more)
  {
    hide Take;
    if |was| < limit {
      TakeFirst(x, more, limit - |was|);
      Associate(was, [x], Take(more, limit - |was| - 1));
    } else {
      TakeNone(more);
      TakeNone([x] + more);
    }
  }

  lemma TakeFirst<T>(x: T, more: seq<T>, n: nat)
    requires n > 0
    ensures Take([x] + more, n) == [x] + Take(more, n - 1)
  {
  }

  lemma TakeNone<T>(s: seq<T>)
    ensures Take(s, 0) == []
  {
  }

  lemma OneValue(d: Dictionary, s: seq<Unit>, start: nat, end: nat, value: int)
    requires Sorted(d.words) && start <= end <= |s|
    requires Pair(Key(d.transform, Decode(s[start..end])), value) in d.words
    ensures d.IsWord(s, start, end) && d.ValueOf(s, start, end) == value
  {
    var q := Pair(Key(d.transform, Decode(s[start..end])), value);
    assert d.IsWord(s, start, end);
    var p :| p in d.words && p.key == q.key && p.value == d.ValueOf(s, start, end);
    var i :| 0 <= i < |d.words| && d.words[i] == p;
    var j :| 0 <= j < |d.words| && d.words[j] == q;
    LessIrreflexive(p.key);
  }

  /** What the status after one more code point says about the words and about the prefix. */
  lemma MatchStep(d: Dictionary, s: seq<Unit>, start: nat, p: nat, n: nat, maxLength: int, result: Result)
    returns (here: seq<Candidate>, more: seq<Candidate>)
    requires start <= p < |s| && Boundary(s, start) && Boundary(s, p)
    requires result == Status(d.words, Key(d.transform, Decode(s[start..Next(s, p)])))
    ensures d.Words(s, start, p, n, maxLength) == here + more
    ensures if result in {FinalValue, IntermediateValue} then
              d.IsWord(s, start, Next(s, p))
              && here == [Candidate(Next(s, p) - start, n + 1, d.ValueOf(s, start, Next(s, p)))]
            else here == []
    ensures if result in {FinalValue, NoMatch} || Next(s, p) - start >= maxLength then
              more == [] && d.PrefixLength(s, start, p, n, maxLength) == n + 1
            else
              && more == d.Words(s, start, Next(s, p), n + 1, maxLength)
              && d.PrefixLength(s, start, p, n, maxLength) == d.PrefixLength(s, start, Next(s, p), n + 1, maxLength)
  {
    hide Status, Key, Decode, Next, Boundary, Dictionary.Words, Dictionary.PrefixLength, Dictionary.IsWord, Dictionary.IsPrefix;
    BoundaryStep(s, p);
    var q := Next(s, p);
    WordsStep(d, s, start, p, n, maxLength);
    StatusAt(d, s, start, q);
    here := d.Here(s, start, q, n + 1);
    more := if q - start < maxLength then d.Words(s, start, q, n + 1, maxLength) else [];
    if result in {FinalValue, NoMatch} {
      NoMoreWords(d, s, start, q, q, n + 1, maxLength);
    }
  }

  lemma WordsStep(d: Dictionary, s: seq<Unit>, start: nat, p: nat, n: nat, maxLength: int)
    requires start <= p < |s| && Next(s, p) <= |s|
    ensures d.Words(s, start, p, n, maxLength) ==
      d.Here(s, start, Next(s, p), n + 1)
      + if Next(s, p) - start < maxLength then d.Words(s, start, Next(s, p), n + 1, maxLength) else []
    ensures d.PrefixLength(s, start, p, n, maxLength) ==
      if d.IsPrefix(s, start, Next(s, p)) && Next(s, p) - start < maxLength then
        d.PrefixLength(s, start, Next(s, p), n + 1, maxLength)
      else n + 1
  {
  }

  lemma StatusAt(d: Dictionary, s: seq<Unit>, start: nat, end: nat)
    requires start <= end <= |s|
    ensures var result := Status(d.words, Key(d.transform, Decode(s[start..end])));
      && (result in {FinalValue, NoMatch} <==> !d.IsPrefix(s, start, end))
      && (result in {FinalValue, IntermediateValue} <==> d.IsWord(s, start, end))
  {
    hide Key, Decode, Status;
    StatusLonger(d.words, Key(d.transform, Decode(s[start..end])));
  }

  lemma StatusLonger(pairs: seq<Pair>, key: seq<int>)
    ensures Status(pairs, key) in {FinalValue, NoMatch} <==> !HasLonger(pairs, key)
    ensures Status(pairs, key) in {FinalValue, IntermediateValue} <==> HasKey(pairs, key)
  {
    if p :| p in pairs && p.key == key {
      assert key <= p.key;
    }
    if p :| p in pairs && key < p.key {
      assert key <= p.key;
    }
    if HasPrefix(pairs, key) && !HasKey(pairs, key) {
      var p :| p in pairs && key <= p.key;
      assert key < p.key;
    }
  }

  /** A code point ends at end, and it is the first after p or it starts before maxLength is reached. */
  predicate InReach(s: seq<Unit>, start: nat, p: nat, end: nat, maxLength: int) {
    && p < end <= |s| && Boundary(s, end)
    && (Previous(s, end) == p || Previous(s, end) - start < maxLength)
  }

  /** Every word is found: it ends within reach, and its lengths and value are right. */
  lemma {:induction false} WordsSound(d: Dictionary, s: seq<Unit>, start: nat, p: nat, n: nat, maxLength: int, i: nat)
    requires start <= p <= |s| && Boundary(s, p)
    requires i < |d.Words(s, start, p, n, maxLength)|
    ensures var w := d.Words(s, start, p, n, maxLength)[i];
      var end := start + w.cuLength;
      && InReach(s, start, p, end, maxLength) && d.IsWord(s, start, end)
      && w.cpLength == n + |Decode(s[p..end])| > n && w.value == d.ValueOf(s, start, end)
    decreases |s| - p
  {
    hide Decode, Dictionary.IsWord, Dictionary.ValueOf, Next, PairAt, Dictionary.Words;
    BoundaryStep(s, p);
    var q := Next(s, p);
    WordsStep(d, s, start, p, n, maxLength);
    BoundaryOrder(s, p, q);
    var w := d.Words(s, start, p, n, maxLength)[i];
    var first := |d.Here(s, start, q, n + 1)|;
    if i < first {
      OneCodePoint(s, p);
    } else {
      WordsSound(d, s, start, q, n + 1, maxLength, i - first);
      MoreCodePoints(s, p, start + w.cuLength);
    }
  }

  /** Nothing else is found. */
  lemma {:induction false} WordsComplete(d: Dictionary, s: seq<Unit>, start: nat, p: nat, n: nat, maxLength: int, end: nat)
    requires start <= p <= |s| && Boundary(s, p)
    requires InReach(s, start, p, end, maxLength) && d.IsWord(s, start, end)
    ensures exists w :: w in d.Words(s, start, p, n, maxLength) && w.cuLength == end - start
    decreases |s| - p
  {
    hide Decode, Dictionary.IsWord, Dictionary.ValueOf, Next, PairAt, Previous, Boundary;
    var q := Next(s, p);
    BoundaryStep(s, p);
    BoundaryStep(s, end);
    BoundaryOrder(s, p, end);
    var here := d.Here(s, start, q, n + 1);
    if end == q {
      assert here[0] in d.Words(s, start, p, n, maxLength);
    } else {
      WordsComplete(d, s, start, q, n + 1, maxLength, end);
      var w :| w in d.Words(s, start, q, n + 1, maxLength) && w.cuLength == end - start;
      assert d.Words(s, start, p, n, maxLength) == here + d.Words(s, start, q, n + 1, maxLength);
      assert w in d.Words(s, start, p, n, maxLength);
    }
  }

  /** Which code points end before another one. */
  lemma BoundaryOrder(s: seq<Unit>, p: nat, end: nat)
    requires Boundary(s, p) && Boundary(s, end) && p < end
    ensures Next(s, p) <= end && Previous(s, end) >= p
    ensures Next(s, p) < end ==> Previous(s, end) >= Next(s, p)
    ensures Next(s, p) == end ==> Previous(s, end) == p
  {
  }

  lemma BoundaryBefore(s: seq<Unit>, end: nat, limit: nat)
    requires Boundary(s, end) && Boundary(s, limit) && end > 0 && Previous(s, end) < limit
    ensures end <= limit
  {
  }

  lemma OneCodePoint(s: seq<Unit>, p: nat)
    requires p < |s| && Boundary(s, p)
    ensures |Decode(s[p..Next(s, p)])| == 1
  {
    var u := s[p..Next(s, p)];
    assert u[Next(u, 0)..] == [];
  }

  lemma MoreCodePoints(s: seq<Unit>, p: nat, end: nat)
    requires Boundary(s, p) && Boundary(s, end) && p < |s| && Next(s, p) <= end
    ensures |Decode(s[p..end])| == 1 + |Decode(s[Next(s, p)..end])|
  {
    var u := s[p..end];
    assert Next(u, 0) == Next(s, p) - p;
    assert u[Next(u, 0)..] == s[Next(s, p)..end];
  }

  ghost predicate LengthsAscend(w: seq<Candidate>) {
    forall i, j :: 0 <= i < j < |w| ==> w[i].cuLength < w[j].cuLength && w[i].cpLength < w[j].cpLength
  }

  /** The words are in order of their length, in code units and in code points. */
  lemma {:induction false} WordsAscend(d: Dictionary, s: seq<Unit>, start: nat, p: nat, n: nat, maxLength: int)
    requires start <= p <= |s| && Boundary(s, p)
    ensures var w := d.Words(s, start, p, n, maxLength);
      LengthsAscend(w)
    decreases |s| - p
  {
    if p < |s| {
      var q := Next(s, p);
      BoundaryStep(s, p);
      WordsAscend(d, s, start, q, n + 1, maxLength);
      var more := d.Words(s, start, q, n + 1, maxLength);
      forall i | 0 <= i < |more|
        ensures more[i].cuLength > q - start && more[i].cpLength > n + 1
      {
        WordsSound(d, s, start, q, n + 1, maxLength, i);
      }
    }
  }

  /** The prefix which was looked at is at least as long as every word. */
  lemma {:induction false} WordsInPrefix(d: Dictionary, s: seq<Unit>, start: nat, p: nat, n: nat, maxLength: int, i: nat)
    requires start <= p <= |s| && Boundary(s, start) && Boundary(s, p)
    requires i < |d.Words(s, start, p, n, maxLength)|
    ensures d.Words(s, start, p, n, maxLength)[i].cpLength <= d.PrefixLength(s, start, p, n, maxLength)
    decreases |s| - p
  {
    hide Decode, Dictionary.IsWord, Dictionary.ValueOf, Next, PairAt, Key, Boundary;
    var q := Next(s, p);
    BoundaryStep(s, p);
    var first := |d.Here(s, start, q, n + 1)|;
    PrefixGrows(d, s, start, p, n, maxLength);
    if i >= first {
      if !d.IsPrefix(s, start, q) {
        NoMoreWords(d, s, start, q, q, n + 1, maxLength);
      }
      WordsInPrefix(d, s, start, q, n + 1, maxLength, i - first);
    }
  }

  lemma {:induction false} PrefixGrows(d: Dictionary, s: seq<Unit>, start: nat, p: nat, n: nat, maxLength: int)
    requires start <= p < |s|
    ensures n < d.PrefixLength(s, start, p, n, maxLength)
    decreases |s| - p
  {
    var q := Next(s, p);
    if q < |s| && d.IsPrefix(s, start, q) && q - start < maxLength {
      PrefixGrows(d, s, start, q, n + 1, maxLength);
    }
  }

  /** The lengths are exactly those at which the text is a word, when maxLength ends a code point. */
  lemma WordLengths(d: Dictionary, s: seq<Unit>, start: nat, maxLength: nat, length: nat)
    requires Boundary(s, start) && Boundary(s, start + maxLength) && maxLength > 0
    ensures (exists w :: w in d.Words(s, start, start, 0, maxLength) && w.cuLength == length) <==>
              0 < length <= maxLength && Boundary(s, start + length) && d.IsWord(s, start, start + length)
  {
    hide Decode, Dictionary.Words, Dictionary.IsWord, Dictionary.ValueOf, Next, PairAt;
    var words := d.Words(s, start, start, 0, maxLength);
    if w :| w in words && w.cuLength == length {
      var i :| 0 <= i < |words| && words[i] == w;
      WordsSound(d, s, start, start, 0, maxLength, i);
      BoundaryStep(s, start + length);
      BoundaryBefore(s, start + length, start + maxLength);
    }
    if 0 < length <= maxLength && Boundary(s, start + length) && d.IsWord(s, start, start + length) {
      BoundaryStep(s, start + length);
      BoundaryOrder(s, start, start + length);
      WordsComplete(d, s, start, start, 0, maxLength, start + length);
    }
  }

  /** With a limit, the shortest words are found. */
  lemma FirstWordsShortest(d: Dictionary, s: seq<Unit>, start: nat, maxLength: int, limit: nat)
    requires Boundary(s, start)
    ensures var all, first := d.Words(s, start, start, 0, maxLength), d.FirstWords(s, start, maxLength, limit);
      && first <= all && (|first| < limit ==> first == all)
      && LengthsAscend(first)
      && forall i, j :: 0 <= i < |first| <= j < |all| ==> first[i].cuLength < all[j].cuLength
  {
    WordsAscend(d, s, start, start, 0, maxLength);
  }

  /** Each word is at least one code unit longer than the one before. */
  lemma {:induction false} AtLeast(w: seq<Candidate>, k: nat)
    requires LengthsAscend(w) && k < |w|
    ensures w[k].cuLength >= w[0].cuLength + k
  {
    if k > 0 {
      AtLeast(w, k - 1);
    }
  }
}
