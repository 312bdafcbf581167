/** The trie cursor, which matches one byte at a time. */
module BytesTrie {
  import opened Basics
  import opened Trie
  import opened TrieCodec
  import opened TrieFormat
  import opened TrieCursor

  /** The value result for a node lead byte. */
  function ValueResult(node: Byte): Result {
    if node % 2 == 1 then FinalValue else IntermediateValue
  }

  /** A node lead byte gives the status of its node. */
  lemma LeadStatus(b: seq<Byte>, pos: nat, n: Node)
    requires NodeAt(b, pos, n)
    ensures pos < |b|
    ensures NodeStatus(n) == if b[pos] >= kMinValueLead then ValueResult(b[pos]) else NoValue
    ensures n.IsValue() <==> b[pos] >= kMinValueLead
    ensures n.Branch? <==> b[pos] < kMinLinearMatch
  {
  }

  /** What a node lead byte says about where a byte leads. */
  lemma ReadLead(b: seq<Byte>, pos: nat, n: Node, c: int)
    requires NodeAt(b, pos, n) && WellFormed(n)
    ensures pos < |b|
    ensures b[pos] < kMinLinearMatch ==>
              && n.Branch? && 2 <= |n.kids| <= 0x100 && Increasing(n.kids)
              && (if b[pos] == 0 then pos + 1 < |b| && b[pos + 1] == |n.kids| - 1 else b[pos] == |n.kids| - 1)
              && BranchAt(b, if b[pos] == 0 then pos + 2 else pos + 1, n.kids)
              && NodeAfter(b, pos, -1, n, c) ==
                   State(KidPos(b, if b[pos] == 0 then pos + 2 else pos + 1, n.kids, c), -1, StepKids(n.kids, c))
    ensures kMinLinearMatch <= b[pos] < kMinValueLead ==>
              && pos + 1 < |b|
              && NodeAfter(b, pos, -1, n, c) ==
                   if b[pos + 1] == c then State(pos + 2, b[pos] - kMinLinearMatch - 1, Step(n, c)) else State(NULL, -1, None)
    ensures kMinValueLead <= b[pos] && b[pos] % 2 == 1 ==> NodeAfter(b, pos, -1, n, c) == State(NULL, -1, None)
    ensures kMinValueLead <= b[pos] && b[pos] % 2 == 0 ==>
              && n.Intermediate? && ValueFits(b, pos) && NodeAt(b, SkipValue(b, pos), n.next) && WellFormed(n.next)
              && NodeAfter(b, pos, -1, n, c) == NodeAfter(b, SkipValue(b, pos), -1, n.next, c)
  {
    hide KidPos, StepKids, BranchAt;
    LeadStatus(b, pos, n);
    if n.Linear? {
      LinearRest(b, pos + 1, n);
    }
  }

  class BytesTrie {
    const bytes: seq<Byte>
    var pos: int
    var remainingMatchLength: int

    /** The tree which the bytes stand for, and what has been matched since the start. */
    ghost const root: Node
    ghost var matched: seq<int>
    ghost var node: Option<Node>

    ghost predicate Valid()
      reads this
    {
      && NodeAt(bytes, 0, root) && StateOk(bytes, Here()) && Tracks(Pairs(root), matched, node)
    }

    /** The fields of the cursor. */
    ghost function Here(): State
      reads this
    {
      State(pos, remainingMatchLength, node)
    }

    constructor (trieBytes: seq<Byte>, ghost tree: Node)
      requires NodeAt(trieBytes, 0, tree)
      ensures Valid() && bytes == trieBytes && root == tree && matched == [] && Here() == State(0, -1, Some(tree))
    {
      bytes := trieBytes;
      pos := 0;
      remainingMatchLength := -1;
      root, matched, node := tree, [], Some(tree);
      new;
      NodeAtWellFormed(bytes, 0, root);
    }

    method Reset()
      requires Valid()
      modifies this
      ensures Valid() && matched == [] && Here() == State(0, -1, Some(root))
    {
      pos := 0;
      remainingMatchLength := -1;
      matched, node := [], Some(root);
      NodeAtWellFormed(bytes, 0, root);
    }

    /** The status of what has been matched so far. */
    method Current() returns (result: Result)
      requires Valid()
      ensures result == Status(Pairs(root), matched)
    {
      CurrentStatus();
      if pos == NULL {
        result := NoMatch;
      } else {
        if remainingMatchLength < 0 {
          LeadStatus(bytes, pos, node.value);
        }
        result := if remainingMatchLength < 0 && bytes[pos] >= kMinValueLead then ValueResult(bytes[pos]) else NoValue;
      }
    }

    lemma CurrentStatus()
      requires Valid()
      ensures Status(Pairs(root), matched) == match node case None => NoMatch case Some(n) => NodeStatus(n)
    {
      StatusOfResidual(Pairs(root), matched);
      if node.Some? {
        StatusOfNode(node.value);
      }
    }

    /** The encoded binary search: finds the list sub-node for the byte. */
    method BranchSearch(pos0: nat, length0: nat, inByte: int, ghost kids: seq<Kid>)
      returns (p: nat, length: nat, ghost rest: seq<Kid>)
      requires |kids| == length0 >= 2 && Increasing(kids) && BranchAt(bytes, pos0, kids)
      ensures 2 <= length == |rest| <= kMaxBranchLinearSubNodeLength && BranchAt(bytes, p, rest)
      ensures StepKids(rest, inByte) == StepKids(kids, inByte)
      ensures KidPos(bytes, p, rest, inByte) == KidPos(bytes, pos0, kids, inByte)
    {
      hide StepKids;
      p, length, rest := pos0, length0, kids;
      while length > kMaxBranchLinearSubNodeLength
        invariant length == |rest| >= 2 && BranchAt(bytes, p, rest)
        invariant Increasing(rest) && StepKids(rest, inByte) == StepKids(kids, inByte)
        invariant KidPos(bytes, p, rest, inByte) == KidPos(bytes, pos0, kids, inByte)
      {
        ghost var half := length / 2;
        StepHalf(rest, half, bytes[p], inByte);
        if inByte < bytes[p] {
          length := length / 2;
          p := JumpByDelta(bytes, p + 1);
          rest := rest[..half];
        } else {
          length := length - length / 2;
          p := SkipDelta(bytes, p + 1);
          rest := rest[half..];
        }
      }
    }

    /** Follows a branch node to the kid for the byte. */
    method BranchNext(pos0: nat, length0: nat, inByte: int, ghost kids: seq<Kid>) returns (result: Result)
      requires 2 <= |kids| <= 0x100 && Increasing(kids)
      requires if length0 == 0 then pos0 < |bytes| && bytes[pos0] == |kids| - 1 else length0 == |kids| - 1
      requires BranchAt(bytes, if length0 == 0 then pos0 + 1 else pos0, kids)
      modifies this`pos
      ensures pos == KidPos(bytes, if length0 == 0 then pos0 + 1 else pos0, kids, inByte)
      ensures match StepKids(kids, inByte)
              case None => result == NoMatch && pos == NULL
              case Some(m) => 0 <= pos && NodeAt(bytes, pos, m) && result == NodeStatus(m)
    {
      hide KidPos, StepKids, BranchAt, NodeAt;
      var p, length := pos0, length0;
      if length == 0 {
        length := bytes[p];
        p := p + 1;
      }
      ghost var rest;
      p, length, rest := BranchSearch(p, length + 1, inByte, kids);
      result := ListNext(p, length, inByte, rest);
    }

    /** The linear search through a list of at most kMaxBranchLinearSubNodeLength kids. */
    method ListNext(pos0: nat, length0: nat, inByte: int, ghost kids: seq<Kid>) returns (result: Result)
      requires 2 <= |kids| == length0 <= kMaxBranchLinearSubNodeLength && BranchAt(bytes, pos0, kids)
      modifies this`pos
      ensures pos == KidPos(bytes, pos0, kids, inByte)
      ensures match StepKids(kids, inByte)
              case None => result == NoMatch && pos == NULL
              case Some(m) => 0 <= pos && NodeAt(bytes, pos, m) && result == NodeStatus(m)
    {
      var p: nat, length := pos0, length0;
      ghost var rest := kids;
      while length > 1
        invariant 1 <= length == |rest| <= kMaxBranchLinearSubNodeLength && BranchAt(bytes, p, rest)
        invariant StepKids(rest, inByte) == StepKids(kids, inByte)
        invariant KidPos(bytes, p, rest, inByte) == KidPos(bytes, pos0, kids, inByte)
      {
        if inByte == bytes[p] {
          p := p + 1;
          if bytes[p] % 2 == 1 {
            pos, result := p, FinalValue;
          } else {
            pos := SkipValue(bytes, p) + ReadValue(bytes, p + 1, bytes[p] / 2);
            result := StatusAt(pos, rest[0].node);
          }
          return;
        }
        length := length - 1;
        p := SkipValue(bytes, p + 1);
        rest := rest[1..];
      }
      if inByte == bytes[p] {
        pos := p + 1;
        result := StatusAt(pos, rest[0].node);
      } else {
        assert rest[1..] == [];
        pos, result := NULL, NoMatch;
      }
    }

    /** The status of the node at a position. */
    method StatusAt(p: int, ghost n: Node) returns (result: Result)
      requires 0 <= p && NodeAt(bytes, p, n)
      ensures result == NodeStatus(n)
    {
      LeadStatus(bytes, p, n);
      result := if bytes[p] >= kMinValueLead then ValueResult(bytes[p]) else NoValue;
    }

    /** The status of a position which can be inside a linear-match node. */
    method StatusHere(p: int, length: int, ghost n: Node) returns (result: Result)
      requires CursorAt(bytes, p, length, n)
      ensures result == NodeStatus(n)
    {
      if length < 0 {
        result := StatusAt(p, n);
      } else {
        result := NoValue;
      }
    }

    /** Matches one byte from a position outside of a linear-match node. */
    method NextImpl(pos0: nat, inByte: int, ghost n: Node) returns (result: Result)
      requires NodeAt(bytes, pos0, n) && WellFormed(n) && remainingMatchLength == -1
      modifies this`pos, this`remainingMatchLength
      ensures var st := NodeAfter(bytes, pos0, -1, n, inByte); pos == st.pos && remainingMatchLength == st.remaining
      ensures result == match Step(n, inByte) case None => NoMatch case Some(m) => NodeStatus(m)
    {
      hide KidPos, StepKids, BranchAt, NodeAt, NodeAfter, WellFormed, CursorAt;
      NodeAfterOk(bytes, pos0, -1, n, inByte);
      ghost var st := NodeAfter(bytes, pos0, -1, n, inByte);
      var p := pos0;
      ghost var m := n;
      while true
        invariant 0 <= p && NodeAt(bytes, p, m) && WellFormed(m)
        invariant NodeAfter(bytes, p, -1, m, inByte) == st && remainingMatchLength == -1
        decreases m
      {
        ReadLead(bytes, p, m, inByte);
        var lead := bytes[p];
        p := p + 1;
        if lead < kMinLinearMatch {
          result := BranchNext(p, lead, inByte, m.kids);
          return;
        } else if lead < kMinValueLead {
          var length := lead - kMinLinearMatch;
          if inByte == bytes[p] {
            p := p + 1;
            remainingMatchLength := length - 1;
            pos := p;
            result := StatusHere(p, remainingMatchLength, st.node.value);
            return;
          }
          break;
        } else if lead % 2 == 1 {
          break;
        } else {
          p := SkipValue(bytes, p - 1);
          m := m.next;
        }
      }
      pos, result := NULL, NoMatch;
    }

    /** The byte which an input value stands for. */
    static function InByte(c: int): int {
      if c < 0 then c + 0x100 else c
    }

    /** Matches one more byte. */
    method Next(c: int) returns (result: Result)
      requires Valid()
      modifies this
      ensures Valid() && matched == old(matched) + [InByte(c)]
      ensures Here() == After(bytes, old(Here()), InByte(c))
      ensures result == Status(Pairs(root), matched)
    {
      hide NodeAt, Pairs, Residual, Derive, Status, WellFormed, Tracks, NodeAfter;
      var inByte := InByte(c);
      ghost var st := Here();
      TracksOne(Pairs(root), bytes, matched, st, inByte);
      if pos == NULL {
        result := NoMatch;
      } else if remainingMatchLength >= 0 {
        LinearRest(bytes, pos, node.value);
        if inByte == bytes[pos] {
          remainingMatchLength := remainingMatchLength - 1;
          pos := pos + 1;
          result := StatusHere(pos, remainingMatchLength, Step(st.node.value, inByte).value);
        } else {
          pos, result := NULL, NoMatch;
        }
      } else {
        result := NextImpl(pos, inByte, node.value);
      }
      matched, node := matched + [inByte], After(bytes, st, inByte).node;
      CurrentStatus();
    }

    /** Matches a string of signed chars, with a length or NUL-terminated. */
    method NextString(s: seq<int>, sLength: int) returns (result: Result)
      requires Valid()
      requires if sLength < 0 then 0 in s else sLength <= |s|
      modifies this
      ensures Valid() && matched == old(matched) + Text(s, sLength)
      ensures result == Status(Pairs(root), matched)
      ensures var st, text := old(Here()), Text(s, sLength);
        && pos == Fold(bytes, st, text).pos && node == Fold(bytes, st, text).node && (result == NoMatch <==> pos == NULL)
        && remainingMatchLength == StringRemaining(bytes, st, text)
    {
      hide NodeAt, Pairs, Status, WellFormed, Text, Tracks, After, Reaches, MatchLength;
      ghost var st, text := Here(), Text(s, sLength);
      TextEnds(s, sLength);
      TracksFold(Pairs(root), bytes, matched, st, text);
      ReachesStart(bytes, st, text);
      if if sLength < 0 then s[0] == 0 else sLength == 0 {
        ReachesEnd(bytes, st, text, st);
        assert matched + text == matched;
        CurrentStatus();
        result := Current();
        return;
      }
      if pos == NULL {
        FoldStopped(bytes, st, text);
        NothingMatches(bytes, st, text);
        matched, result := matched + text, NoMatch;
        CurrentStatus();
        return;
      }
      var p, length, i, left := pos, remainingMatchLength, 0, sLength;
      ghost var n := node.value;
      while true
        invariant TextAt(s, text, i, left) && Matching(st, text, i, p, length, n)
        invariant matched == old(matched) && node == old(node)
        decreases |text| - i
      {
        var outcome;
        outcome, i, left, p, length, n := MatchPending(s, i, left, p, length, n, st, text);
        if outcome.Byte? {
          outcome, i, left, p, length, n := MatchNodes(s, i, left, p, outcome.c, n, st, text);
        }
        if outcome.Done? {
          result := outcome.result;
          matched, node := matched + text, Fold(bytes, st, text).node;
          CurrentStatus();
          return;
        }
      }
    }

    /** The next char of the text, if there is one. */
    static method FetchByte(s: seq<int>, i0: nat, left0: int, ghost text: seq<int>)
      returns (more: bool, inByte: int, i: nat, left: int)
      requires TextAt(s, text, i0, left0)
      ensures more == (i0 < |text|)
      ensures more ==> inByte == text[i0] && i == i0 + 1 && TextAt(s, text, i, left)
    {
      more, inByte, i, left := true, 0, i0, left0;
      if left < 0 {
        inByte := s[i];
        i := i + 1;
        more := inByte != 0;
      } else if left == 0 {
        more := false;
      } else {
        inByte := s[i];
        i := i + 1;
        left := left - 1;
      }
    }

    /** The cursor is in front of char number i; the field for the remaining length can be out of date. */
    ghost predicate Matching(st: State, text: seq<int>, i: nat, p: int, length: int, n: Node)
      reads this
    {
      && Reaches(bytes, st, text, i, State(p, length, Some(n)))
      && (|| (remainingMatchLength == st.remaining && i <= st.remaining + 1 && length == st.remaining - i)
          || (remainingMatchLength == -1 && i > st.remaining))
    }

    /** The fields are up to date, as far as they will be. */
    ghost predicate Finished(st: State, text: seq<int>, result: Result)
      reads this
      requires StateOk(bytes, st)
    {
      var end := Fold(bytes, st, text);
      && pos == end.pos && remainingMatchLength == StringRemaining(bytes, st, text)
      && result == match end.node case None => NoMatch case Some(n) => NodeStatus(n)
    }

    /** Goes on in a linear-match node, until a node has to be read for the next char or the text ends. */
    method MatchPending(s: seq<int>, i0: nat, left0: int, p0: int, length0: int,
                        ghost n0: Node, ghost st: State, ghost text: seq<int>)
      returns (outcome: Outcome, i: nat, left: int, p: int, length: int, ghost n: Node)
      requires TextAt(s, text, i0, left0) && Matching(st, text, i0, p0, length0, n0)
      modifies this`pos, this`remainingMatchLength
      ensures outcome != Pending && (outcome.Done? ==> Finished(st, text, outcome.result))
      ensures outcome.Byte? ==>
                && i0 < i && TextAt(s, text, i, left) && outcome.c == text[i - 1] && length == remainingMatchLength == -1
                && Reaches(bytes, st, text, i - 1, State(p, -1, Some(n))) && i - 1 > st.remaining
    {
      hide Fold, MatchLength, Reaches, NodeAt;
      i, left, p, length, n := i0, left0, p0, length0, n0;
      while true
        invariant i0 <= i && TextAt(s, text, i, left) && Matching(st, text, i, p, length, n)
        invariant remainingMatchLength == old(remainingMatchLength)
        decreases |text| - i
      {
        ghost var cur := State(p, length, Some(n));
        ReachesOk(bytes, st, text, i, cur);
        var more, inByte, next, rest := FetchByte(s, i, left, text);
        if !more {
          ReachesEnd(bytes, st, text, cur);
          remainingMatchLength := length;
          pos := p;
          var result := StatusHere(p, length, n);
          outcome := Done(result);
          return;
        }
        if length < 0 {
          remainingMatchLength := length;
          outcome, i, left := Byte(inByte), next, rest;
          return;
        }
        ReachesStep(bytes, st, text, i, cur);
        if inByte != bytes[p] {
          pos := NULL;
          outcome := Done(NoMatch);
          return;
        }
        n := Step(n, inByte).value;
        p, length, i, left := p + 1, length - 1, next, rest;
      }
    }

    /** Goes from node to node, up to a linear-match node which goes on or the end of the text. */
    method MatchNodes(s: seq<int>, i0: nat, left0: int, p0: int, c0: int,
                      ghost n0: Node, ghost st: State, ghost text: seq<int>)
      returns (outcome: Outcome, i: nat, left: int, p: int, length: int, ghost n: Node)
      requires TextAt(s, text, i0, left0) && 0 < i0 && c0 == text[i0 - 1] && remainingMatchLength == -1
      requires Reaches(bytes, st, text, i0 - 1, State(p0, -1, Some(n0))) && i0 - 1 > st.remaining
      modifies this`pos
      ensures !outcome.Byte? && (outcome.Done? ==> Finished(st, text, outcome.result))
      ensures outcome == Pending ==> i0 <= i && TextAt(s, text, i, left) && Matching(st, text, i, p, length, n)
    {
      hide Fold, MatchLength, Reaches, KidPos, StepKids, BranchAt, NodeAt, NodeAfter, WellFormed;
      i, left, p, length, n := i0, left0, p0, -1, n0;
      var inByte := c0;
      ghost var cur := State(p, -1, Some(n));
      ReachesOk(bytes, st, text, i - 1, cur);
      while true
        invariant i0 <= i && TextAt(s, text, i, left) && inByte == text[i - 1] && remainingMatchLength == -1
        invariant Reaches(bytes, st, text, i - 1, cur) && StateOk(bytes, cur) && cur.remaining == -1 && cur.node.Some?
        invariant 0 <= p && NodeAt(bytes, p, n) && WellFormed(n)
        invariant NodeAfter(bytes, p, -1, n, inByte) == After(bytes, cur, inByte)
        decreases |text| - i, n
      {
        ReadLead(bytes, p, n, inByte);
        ReachesStep(bytes, st, text, i - 1, cur);
        var lead := bytes[p];
        p := p + 1;
        if lead < kMinLinearMatch {
          var result := BranchNext(p, lead, inByte, n.kids);
          if result == NoMatch {
            outcome := Done(NoMatch);
            return;
          }
          cur := After(bytes, cur, inByte);
          var more, c, next, rest := FetchByte(s, i, left, text);
          if !more {
            ReachesEnd(bytes, st, text, cur);
            outcome := Done(result);
            return;
          }
          if result == FinalValue {
            ReachesStep(bytes, st, text, i, cur);
            pos := NULL;
            outcome := Done(NoMatch);
            return;
          }
          p, n := pos, cur.node.value;
          inByte, i, left := c, next, rest;
        } else if lead < kMinValueLead {
          length := lead - kMinLinearMatch;
          if inByte != bytes[p] {
            pos := NULL;
            outcome := Done(NoMatch);
            return;
          }
          p, length := p + 1, length - 1;
          n := Step(n, inByte).value;
          outcome := Pending;
          return;
        } else if lead % 2 == 1 {
          pos := NULL;
          outcome := Done(NoMatch);
          return;
        } else {
          p := SkipValue(bytes, p - 1);
          n := n.next;
        }
      }
    }

    /** The value for what has been matched so far. */
    method GetValue() returns (value: int)
      requires Valid()
      requires Status(Pairs(root), matched) in {FinalValue, IntermediateValue}
      ensures Pair(matched, value) in Pairs(root)
    {
      CurrentStatus();
      value := ReadValue(bytes, pos + 1, bytes[pos] / 2);
      assert Pairs(node.value)[0] == Pair([], value);
      FromResidual(Pairs(root), matched, Pair([], value));
      assert matched + [] == matched;
    }

    /** The bytes which can come next, in ascending order: those with which what has been matched can go on. */
    method GetNextBytes() returns (out: seq<int>, count: nat)
      requires Valid()
      ensures count == |out|
      ensures forall c :: c in out <==> HasPrefix(Pairs(root), matched + [c])
      ensures forall i, j :: 0 <= i < j < |out| ==> out[i] < out[j]
    {
      hide HasPrefix, Residual;
      MatchedNext(Pairs(root), matched, node);
      if pos == NULL {
        return [], 0;
      }
      NextBytesIncrease(node.value);
      if remainingMatchLength >= 0 {
        return [bytes[pos]], 1;
      }
      LeadStatus(bytes, pos, node.value);
      var p, lead := pos, bytes[pos];
      if lead >= kMinValueLead {
        if lead % 2 == 1 {
          return [], 0;
        }
        p := SkipValue(bytes, pos);
        out, count := NodeNextBytes(p, node.value.next);
      } else {
        out, count := NodeNextBytes(p, node.value);
      }
    }

    /** The bytes at a node without a value. */
    method NodeNextBytes(pos0: nat, ghost n: Node) returns (out: seq<int>, count: nat)
      requires NodeAt(bytes, pos0, n) && WellFormed(n) && !n.IsValue()
      ensures out == NextBytes(n) && count == |out|
    {
      hide BranchAt, KidKeys;
      LeadStatus(bytes, pos0, n);
      var p, lead := pos0 + 1, bytes[pos0];
      if lead < kMinLinearMatch {
        if lead == 0 {
          lead := bytes[p];
          p := p + 1;
        }
        out := GetNextBranchBytes(p, lead + 1, n.kids);
        count := lead + 1;
      } else {
        out, count := [bytes[p]], 1;
      }
    }

    /** The bytes of a branch. */
    method GetNextBranchBytes(p0: nat, length0: nat, ghost kids: seq<Kid>) returns (out: seq<int>)
      requires 2 <= |kids| == length0 && BranchAt(bytes, p0, kids)
      ensures out == KidKeys(kids)
      decreases length0, 1
    {
      hide BranchAt, KidKeys;
      out := [];
      var p: nat, length := p0, length0;
      ghost var rest := kids;
      NothingBefore(KidKeys(rest));
      while length > kMaxBranchLinearSubNodeLength
        invariant 2 <= |rest| == length <= length0 && BranchAt(bytes, p, rest) && out + KidKeys(rest) == KidKeys(kids)
      {
        ghost var half, before := length / 2, out;
        BranchHalves(bytes, p, rest);
        p := p + 1;
        var lesser := GetNextBranchBytes(JumpByDelta(bytes, p), length / 2, rest[..half]);
        Associate(before, lesser, KidKeys(rest[half..]));
        out := out + lesser;
        length := length - length / 2;
        p := SkipDelta(bytes, p);
        rest := rest[half..];
      }
      var last := ListBytes(p, length, rest);
      out := out + last;
    }

    /** The bytes of a list. */
    method ListBytes(p0: nat, length0: nat, ghost kids: seq<Kid>) returns (out: seq<int>)
      requires 2 <= |kids| == length0 <= kMaxBranchLinearSubNodeLength && BranchAt(bytes, p0, kids)
      ensures out == KidKeys(kids)
      decreases length0, 0
    {
      hide BranchAt, KidKeys;
      out := [];
      var p: nat, length := p0, length0;
      ghost var rest := kids;
      NothingBefore(KidKeys(rest));
      while length > 1
        invariant 1 <= |rest| == length <= kMaxBranchLinearSubNodeLength && BranchAt(bytes, p, rest)
        invariant out + KidKeys(rest) == KidKeys(kids)
      {
        ghost var before := out;
        ListStep(bytes, p, rest);
        Associate(before, [bytes[p]], KidKeys(rest[1..]));
        out := out + [bytes[p]];
        p := SkipValue(bytes, p + 1);
        length := length - 1;
        rest := rest[1..];
      }
      LastOfList(bytes, p, rest);
      out := out + [bytes[p]];
    }
  }

  lemma NothingBefore(s: seq<int>)
    ensures [] + s == s
  {
  }

  /** A long branch is a jump to its lower half, and its upper half. */
  lemma BranchHalves(b: seq<Byte>, p: nat, kids: seq<Kid>)
    requires |kids| > kMaxBranchLinearSubNodeLength && BranchAt(b, p, kids)
    ensures DeltaFits(b, p + 1) && JumpByDelta(b, p + 1) >= 0
    ensures BranchAt(b, JumpByDelta(b, p + 1), kids[..|kids| / 2]) && BranchAt(b, SkipDelta(b, p + 1), kids[|kids| / 2..])
    ensures KidKeys(kids) == KidKeys(kids[..|kids| / 2]) + KidKeys(kids[|kids| / 2..])
  {
    KidKeysAppend(kids, |kids| / 2);
  }

  lemma ListStep(b: seq<Byte>, p: nat, kids: seq<Kid>)
    requires 1 < |kids| <= kMaxBranchLinearSubNodeLength && BranchAt(b, p, kids)
    ensures p < |b| && ValueFits(b, p + 1) && BranchAt(b, SkipValue(b, p + 1), kids[1..])
    ensures KidKeys(kids) == [b[p]] + KidKeys(kids[1..])
  {
    KidKeysAppend(kids, 1);
    assert KidKeys(kids[..1]) == [b[p]];
  }

  lemma LastOfList(b: seq<Byte>, p: nat, kids: seq<Kid>)
    requires |kids| == 1 && BranchAt(b, p, kids)
    ensures p < |b| && KidKeys(kids) == [b[p]]
  {
  }

  function KidKeys(kids: seq<Kid>): (keys: seq<int>)
    ensures |keys| == |kids| && forall i :: 0 <= i < |keys| ==> keys[i] == kids[i].key
  {
    seq(|kids|, i requires 0 <= i < |kids| => kids[i].key)
  }

  lemma KidKeysAppend(kids: seq<Kid>, i: nat)
    requires i <= |kids|
    ensures KidKeys(kids) == KidKeys(kids[..i]) + KidKeys(kids[i..])
  {
  }

  /** The bytes with which the strings of a node can start. */
  function NextBytes(n: Node): seq<int>
    requires WellFormed(n)
  {
    match n
    case Final(_) => []
    case Intermediate(_, next) => NextBytes(next)
    case Linear(bytes, _) => [bytes[0]]
    case Branch(kids) => KidKeys(kids)
  }

  lemma NextBytesIncrease(n: Node)
    requires WellFormed(n)
    ensures forall i, j :: 0 <= i < j < |NextBytes(n)| ==> NextBytes(n)[i] < NextBytes(n)[j]
  {
  }

  /** The bytes of a node are those for which there is a step. */
  lemma {:induction false} NextBytesStep(n: Node, c: int)
    requires WellFormed(n)
    ensures c in NextBytes(n) <==> Step(n, c).Some?
  {
    match n
    case Intermediate(_, next) => NextBytesStep(next, c);
    case Branch(kids) =>
      StepKidsAt(kids, c);
      assert c in KidKeys(kids) ==> exists i :: 0 <= i < |kids| && kids[i].key == c;
      assert NoKid(kids, c) || exists i :: 0 <= i < |kids| && KidKeys(kids)[i] == c;
    case _ =>
  }

  lemma {:induction false} MatchedNext(pairs: seq<Pair>, matched: seq<int>, node: Option<Node>)
    requires match node
             case None => Residual(pairs, matched) == []
             case Some(n) => WellFormed(n) && Residual(pairs, matched) == Pairs(n)
    ensures forall c :: (node.Some? && c in NextBytes(node.value)) <==> HasPrefix(pairs, matched + [c])
  {
    forall c
      ensures (node.Some? && c in NextBytes(node.value)) <==> HasPrefix(pairs, matched + [c])
    {
      ResidualAppend(pairs, matched, [c]);
      assert [c][1..] == [];
      assert Residual(pairs, matched + [c]) == Derive(Residual(pairs, matched), c);
      PrefixResidual(pairs, matched + [c]);
      if node.Some? {
        NextBytesStep(node.value, c);
        StepPairs(node.value, c);
        if Step(node.value, c).Some? {
          PairsNonEmpty(Step(node.value, c).value);
        }
      }
    }
  }

  lemma PrefixResidual(pairs: seq<Pair>, s: seq<int>)
    ensures HasPrefix(pairs, s) <==> Residual(pairs, s) != []
  {
    if HasPrefix(pairs, s) {
      var p :| p in pairs && s <= p.key;
      ToResidual(pairs, s, p);
    }
    if Residual(pairs, s) != [] {
      var p := Residual(pairs, s)[0];
      FromResidual(pairs, s, p);
      assert s <= s + p.key;
    }
  }

  /** How far the string form has come: it stops, it has to read a node for a char, or it is inside a linear-match node. */
  datatype Outcome = Done(result: Result) | Byte(c: int) | Pending

  /** i chars of the text have been read, and left is the length of the rest, or negative up to a NUL. */
  ghost predicate TextAt(s: seq<int>, text: seq<int>, i: nat, left: int) {
    && text <= s && i <= |text|
    && if left < 0 then |text| < |s| && s[|text|] == 0 && 0 !in text else left == |text| - i
  }

  /** The chars of a text with a length, or up to a NUL. */
  ghost function Text(s: seq<int>, sLength: int): seq<int>
    requires if sLength < 0 then 0 in s else sLength <= |s|
  {
    if sLength >= 0 then s[..sLength]
    else if s[0] == 0 then [] else [s[0]] + Text(s[1..], sLength)
  }

  lemma {:induction false} TextEnds(s: seq<int>, sLength: int)
    requires if sLength < 0 then 0 in s else sLength <= |s|
    ensures var text := Text(s, sLength);
      && text <= s
      && (sLength < 0 ==> |text| < |s| && s[|text|] == 0 && 0 !in text)
      && (sLength >= 0 ==> |text| == sLength)
  {
    if sLength < 0 && s[0] != 0 {
      TextEnds(s[1..], sLength);
    }
  }

  ghost predicate ByteKeys(pairs: seq<Pair>) {
    forall p, k :: p in pairs && 0 <= k < |p.key| ==> 0 <= p.key[k] < 0x100
  }
}
