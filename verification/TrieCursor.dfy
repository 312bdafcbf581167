/** Positions in a serialized trie, and where one byte or several bytes lead from them. */
module TrieCursor {
  import opened Basics
  import opened Trie
  import opened TrieCodec
  import opened TrieFormat

  const NULL := -1

  /** A position in the serialized trie, inside a linear-match node if remaining >= 0. */
  ghost predicate CursorAt(b: seq<Byte>, pos: int, remaining: int, n: Node) {
    && 0 <= pos
    && if remaining < 0 then
         NodeAt(b, pos, n)
       else
         && n.Linear? && |n.bytes| == remaining + 1
         && pos + |n.bytes| <= |b| && b[pos..pos + |n.bytes|] == n.bytes
         && NodeAt(b, pos + |n.bytes|, n.next)
  }

  /** One byte further into a linear-match node. */
  lemma LinearRest(b: seq<Byte>, pos: int, n: Node)
    requires 0 <= pos && n.Linear? && n.bytes != [] && CursorAt(b, pos, |n.bytes| - 1, n)
    ensures b[pos] == n.bytes[0]
    ensures CursorAt(b, pos + 1, |n.bytes| - 2, if |n.bytes| == 1 then n.next else Linear(n.bytes[1..], n.next))
  {
    assert n.bytes[0] == b[pos..pos + |n.bytes|][0];
    assert n.bytes[1..] == b[pos + 1..pos + |n.bytes|];
  }

  /** The fields of a cursor, and the node which is left; without one, nothing more can match. */
  datatype State = State(pos: int, remaining: int, node: Option<Node>)

  ghost predicate StateOk(b: seq<Byte>, st: State) {
    && st.remaining >= -1 && (st.pos == NULL <==> st.node == None)
    && (st.node.Some? ==> WellFormed(st.node.value) && CursorAt(b, st.pos, st.remaining, st.node.value))
  }

  /** Where the node of the kid for the byte c starts. */
  ghost function KidPos(b: seq<Byte>, pos: nat, kids: seq<Kid>, c: int): (p: int)
    requires BranchAt(b, pos, kids)
    decreases |kids|
  {
    if |kids| > kMaxBranchLinearSubNodeLength then
      if c < b[pos] then KidPos(b, JumpByDelta(b, pos + 1), kids[..|kids| / 2], c)
      else KidPos(b, SkipDelta(b, pos + 1), kids[|kids| / 2..], c)
    else if |kids| == 1 then
      if c == b[pos] then pos + 1 else NULL
    else if c == b[pos] then
      if IsFinalAt(b, pos + 1) then pos + 1 else SkipValue(b, pos + 1) + ValueAt(b, pos + 1)
    else KidPos(b, SkipValue(b, pos + 1), kids[1..], c)
  }

  lemma {:induction false} KidPosOk(b: seq<Byte>, pos: nat, kids: seq<Kid>, c: int)
    requires BranchAt(b, pos, kids) && Increasing(kids)
    ensures match StepKids(kids, c)
            case None => KidPos(b, pos, kids, c) == NULL
            case Some(m) => KidPos(b, pos, kids, c) >= 0 && NodeAt(b, KidPos(b, pos, kids, c), m)
    decreases |kids|, 1
  {
    hide NodeAt, StepKids;
    if |kids| > kMaxBranchLinearSubNodeLength {
      var half := |kids| / 2;
      StepHalf(kids, half, b[pos], c);
      if c < b[pos] {
        KidPosOk(b, JumpByDelta(b, pos + 1), kids[..half], c);
      } else {
        KidPosOk(b, SkipDelta(b, pos + 1), kids[half..], c);
      }
    } else {
      ListPosOk(b, pos, kids, c);
    }
  }

  lemma {:induction false} ListPosOk(b: seq<Byte>, pos: nat, kids: seq<Kid>, c: int)
    requires BranchAt(b, pos, kids) && Increasing(kids) && |kids| <= kMaxBranchLinearSubNodeLength
    ensures match StepKids(kids, c)
            case None => KidPos(b, pos, kids, c) == NULL
            case Some(m) => KidPos(b, pos, kids, c) >= 0 && NodeAt(b, KidPos(b, pos, kids, c), m)
    decreases |kids|, 0
  {
    if |kids| == 1 {
      assert kids[1..] == [];
      assert KidAt(b, pos + 1, kids[0]);
    } else if c == b[pos] {
      ListedAt(b, pos + 1, kids[0]);
    } else {
      KidPosOk(b, SkipValue(b, pos + 1), kids[1..], c);
    }
  }

  lemma ListedAt(b: seq<Byte>, pos: nat, kid: Kid)
    requires ValueFits(b, pos) && ListedKidAt(b, pos, kid)
    ensures var p := if IsFinalAt(b, pos) then pos else SkipValue(b, pos) + ValueAt(b, pos);
      p >= 0 && NodeAt(b, p, kid.node)
  {
  }

  /** Where the byte c leads from a node. */
  ghost function NodeAfter(b: seq<Byte>, pos: nat, remaining: int, n: Node, c: int): State
    requires NodeAt(b, pos, n) && WellFormed(n)
    decreases n
  {
    match n
    case Final(_) => State(NULL, remaining, None)
    case Intermediate(_, next) => NodeAfter(b, SkipValue(b, pos), remaining, next, c)
    case Linear(bytes, _) =>
      if bytes[0] == c then State(pos + 2, |bytes| - 2, Step(n, c)) else State(NULL, remaining, None)
    case Branch(kids) => State(KidPos(b, AfterBranchHead(b, pos), kids, c), remaining, StepKids(kids, c))
  }

  lemma {:induction false} NodeAfterOk(b: seq<Byte>, pos: nat, remaining: int, n: Node, c: int)
    requires NodeAt(b, pos, n) && WellFormed(n) && remaining == -1
    ensures var st := NodeAfter(b, pos, remaining, n, c);
      StateOk(b, st) && st.node == Step(n, c) && (st.node == None ==> st.remaining == -1)
    decreases n
  {
    StepPairs(n, c);
    match n
    case Final(_) =>
    case Intermediate(_, next) => NodeAfterOk(b, SkipValue(b, pos), remaining, next, c);
    case Linear(bytes, _) => LinearRest(b, pos + 1, n);
    case Branch(kids) => KidPosOk(b, AfterBranchHead(b, pos), kids, c);
  }

  /** Where the byte c leads. */
  ghost function After(b: seq<Byte>, st: State, c: int): (r: State)
    requires StateOk(b, st)
    ensures StateOk(b, r) && (st.node.Some? ==> r.node == Step(st.node.value, c))
    ensures r.node == None ==> r.remaining == st.remaining
  {
    if st.node == None then st
    else
      StepPairs(st.node.value, c);
      if st.remaining >= 0 then
        LinearRest(b, st.pos, st.node.value);
        if b[st.pos] == c then State(st.pos + 1, st.remaining - 1, Step(st.node.value, c))
        else State(NULL, st.remaining, None)
      else
        NodeAfterOk(b, st.pos, st.remaining, st.node.value, c);
        NodeAfter(b, st.pos, st.remaining, st.node.value, c)
  }

  /** Where the bytes of a text lead, one after the other. */
  ghost function Fold(b: seq<Byte>, st: State, text: seq<int>): (r: State)
    requires StateOk(b, st)
    ensures StateOk(b, r)
    decreases |text|
  {
    if text == [] then st else Fold(b, After(b, st, text[0]), text[1..])
  }

  /** How many bytes of the text match. */
  ghost function MatchLength(b: seq<Byte>, st: State, text: seq<int>): (m: nat)
    requires StateOk(b, st)
    ensures m <= |text|
    decreases |text|
  {
    if text == [] || After(b, st, text[0]).node == None then 0
    else 1 + MatchLength(b, After(b, st, text[0]), text[1..])
  }

  lemma {:induction false} FoldStopped(b: seq<Byte>, st: State, text: seq<int>)
    requires StateOk(b, st) && st.node == None
    ensures Fold(b, st, text) == st
    decreases |text|
  {
    if text != [] {
      FoldStopped(b, st, text[1..]);
    }
  }

  /** One more byte at the end. */
  lemma {:induction false} FoldMore(b: seq<Byte>, st: State, text: seq<int>, c: int)
    requires StateOk(b, st)
    ensures Fold(b, st, text + [c]) == After(b, Fold(b, st, text), c)
    decreases |text|
  {
    if text == [] {
      assert (text + [c])[1..] == [];
    } else {
      assert (text + [c])[1..] == text[1..] + [c];
      FoldMore(b, After(b, st, text[0]), text[1..], c);
    }
  }

  /** What the pairs still spell after the matched bytes is what the node stands for. */
  ghost predicate Tracks(pairs: seq<Pair>, matched: seq<int>, node: Option<Node>) {
    match node
    case None => Residual(pairs, matched) == []
    case Some(n) => WellFormed(n) && Residual(pairs, matched) == Pairs(n)
  }

  lemma TracksOne(pairs: seq<Pair>, b: seq<Byte>, matched: seq<int>, st: State, c: int)
    requires StateOk(b, st) && Tracks(pairs, matched, st.node)
    ensures Tracks(pairs, matched + [c], After(b, st, c).node)
  {
    ResidualAppend(pairs, matched, [c]);
    assert [c][1..] == [];
    assert Residual(pairs, matched + [c]) == Derive(Residual(pairs, matched), c);
    if st.node.Some? {
      StepPairs(st.node.value, c);
    }
  }

  lemma {:induction false} TracksFold(pairs: seq<Pair>, b: seq<Byte>, matched: seq<int>, st: State, text: seq<int>)
    requires StateOk(b, st) && Tracks(pairs, matched, st.node)
    ensures Tracks(pairs, matched + text, Fold(b, st, text).node)
    decreases |text|
  {
    hide Tracks, StateOk, After;
    if text == [] {
      assert matched + text == matched;
    } else {
      TracksOne(pairs, b, matched, st, text[0]);
      TracksFold(pairs, b, matched + [text[0]], After(b, st, text[0]), text[1..]);
      assert matched + [text[0]] + text[1..] == matched + text;
    }
  }

  /** After the first i bytes of the text, the rest of it leads from cur to where all of it leads from st. */
  ghost predicate Reaches(b: seq<Byte>, st: State, text: seq<int>, i: nat, cur: State) {
    && StateOk(b, st) && StateOk(b, cur) && i <= |text|
    && Fold(b, st, text) == Fold(b, cur, text[i..])
    && MatchLength(b, st, text) == i + MatchLength(b, cur, text[i..])
  }

  lemma ReachesStart(b: seq<Byte>, st: State, text: seq<int>)
    requires StateOk(b, st)
    ensures Reaches(b, st, text, 0, st)
  {
    assert text[0..] == text;
  }

  lemma ReachesStep(b: seq<Byte>, st: State, text: seq<int>, i: nat, cur: State)
    requires Reaches(b, st, text, i, cur) && i < |text|
    ensures After(b, cur, text[i]).node.Some? ==> Reaches(b, st, text, i + 1, After(b, cur, text[i]))
    ensures After(b, cur, text[i]).node == None ==>
              Fold(b, st, text) == After(b, cur, text[i]) && MatchLength(b, st, text) == i
  {
    hide After, StateOk;
    assert text[i..][1..] == text[i + 1..] && text[i..][0] == text[i];
    if After(b, cur, text[i]).node == None {
      FoldStopped(b, After(b, cur, text[i]), text[i + 1..]);
    }
  }

  lemma ReachesEnd(b: seq<Byte>, st: State, text: seq<int>, cur: State)
    requires Reaches(b, st, text, |text|, cur)
    ensures Fold(b, st, text) == cur && MatchLength(b, st, text) == |text|
  {
    assert text[|text|..] == [];
  }

  lemma ReachesOk(b: seq<Byte>, st: State, text: seq<int>, i: nat, cur: State)
    requires Reaches(b, st, text, i, cur)
    ensures StateOk(b, st) && StateOk(b, cur) && i <= |text|
  {
  }

  /**
   The remaining length which the string form leaves. It is only stored at the end of the text and in front of a node, so
   that after a mismatch it is still the one from the start or from the last node.
   */
  ghost function StringRemaining(b: seq<Byte>, st: State, text: seq<int>): int
    requires StateOk(b, st)
  {
    if Fold(b, st, text).node.Some? then Fold(b, st, text).remaining
    else if MatchLength(b, st, text) <= st.remaining then st.remaining
    else -1
  }

  lemma NothingMatches(b: seq<Byte>, st: State, text: seq<int>)
    requires StateOk(b, st) && st.node == None
    ensures Fold(b, st, text) == st && StringRemaining(b, st, text) == st.remaining
  {
    FoldStopped(b, st, text);
  }

  /** The part of the text which matches leads to the state in front of the first byte which does not. */
  lemma {:induction false} FoldMatched(b: seq<Byte>, st: State, text: seq<int>)
    requires StateOk(b, st) && st.node.Some?
    ensures var m, st1 := MatchLength(b, st, text), Fold(b, st, text);
      && Fold(b, st, text[..m]).node.Some? && st1.remaining == Fold(b, st, text[..m]).remaining
      && (st1.node == None <==> m < |text|)
      && (m <= st.remaining + 1 ==> Fold(b, st, text[..m]).remaining == st.remaining - m)
    decreases |text|
  {
    var m := MatchLength(b, st, text);
    if m == 0 {
      assert text[..m] == [];
      if text != [] {
        FoldStopped(b, After(b, st, text[0]), text[1..]);
      }
    } else {
      FoldMatched(b, After(b, st, text[0]), text[1..]);
      assert text[..m][0] == text[0] && text[..m][1..] == text[1..][..m - 1];
    }
  }
}
