/** Numbers, separators and selectors of choice, plural and select styles which have been printed. */
module MessageStyles {
  import opened Basics
  import opened Utf16
  import opened MessageParts
  import G = MessageGrammar
  import opened MessageSyntax
  import opened MessageSkips
  import opened MessageNumbers
  import opened MessageHeads

  /** A number up to what is no part of it. */
  lemma NumeralParses(g: Grammar, i: nat, n: Numeral, after: Text, allowInfinity: bool, doubles: nat)
    requires n.Valid() && Here(g, i, n.Print(), after) && after != [] && !IsNumberUnit(after[0])
    ensures var e := i + |n.Print()|;
      && i < e < |g.msg| && g.SkipDouble(i) == e && g.msg[e] == after[0]
      && g.NumberPart(i, e, allowInfinity, doubles) == G.Ok(G.Piece([Leaf(ARG_INT, i, e - i, n.Value())], e, doubles))
  {
    hide Here, Numeral.Value, Grammar.SkipDouble, Grammar.NumberPart;
    NumeralUnits(n);
    SkipNumber(g, i, n.Print(), after);
    HereSlice(g, i, n.Print(), after);
    NumeralRead(g, i, n, after, allowInfinity, doubles);
  }

  /** White space and a number, up to what is no part of it. */
  lemma SpacedNumber(g: Grammar, i: nat, space: Text, n: Numeral, tail: Text, after: Text, allowInfinity: bool, doubles: nat)
    requires SettingOf(g).Usual() && SettingOf(g).Space(space) && n.Valid() && Here(g, i, space + (n.Print() + tail), after)
    requires tail + after != [] && !IsNumberUnit((tail + after)[0])
    ensures var j := i + |space|; var e := j + |n.Print()|;
      && j < e < |g.msg| && g.SkipWhiteSpace(i) == j && g.msg[j] != 0x7d && g.SkipDouble(j) == e && |n.Print()| <= 0xffff
      && g.NumberPart(j, e, allowInfinity, doubles) == G.Ok(G.Piece([Leaf(ARG_INT, j, e - j, n.Value())], e, doubles))
      && Here(g, e, tail, after)
  {
    hide Here, Setting.Usual, Setting.Space, Numeral.Value, Grammar.SkipDouble, Grammar.NumberPart, Grammar.SkipWhiteSpace,
         Numeral.Print, Numeral.Valid;
    var t := n.Print();
    NumeralUnits(n);
    NumeralShort(n);
    UsualUnits(g, t[0]);
    SpaceThen(g, i, space, t + tail, after);
    HereSplit(g, i + |space|, t, tail, after);
    NumeralParses(g, i + |space|, n, tail + after, allowInfinity, doubles);
  }

  /** The first unit after a number. */
  lemma AfterNumber(g: Grammar, gap: Text, c: Unit, after: Text)
    requires SettingOf(g).Usual() && SettingOf(g).Space(gap) && c in {0x23, 0x3c, 0x2264}
    ensures (gap + [c]) + after != [] && !IsNumberUnit(((gap + [c]) + after)[0]) && c !in g.whiteSpace
  {
    hide Setting.Usual;
    UsualUnits(g, c);
    UsualUnits(g, ((gap + [c]) + after)[0]);
  }

  lemma ChoiceHeadAt(g: Grammar, i: nat, j: nat, k: nat, doubles: nat, v: int)
    requires i < j <= k < |g.msg| && g.SkipDouble(i) == j && j - i <= 0xffff
    requires g.NumberPart(i, j, true, doubles) == G.Ok(G.Piece([Leaf(ARG_INT, i, j - i, v)], j, doubles))
    requires g.SkipWhiteSpace(j) == k && g.msg[k] in {0x23, 0x3c, 0x2264}
    ensures g.ChoiceHead(i, doubles) ==
      G.Ok(G.Piece([Leaf(ARG_INT, i, j - i, v), Leaf(ARG_SELECTOR, k, 1, 0)], k + 1, doubles))
  {
    hide Grammar.SkipWhiteSpace, Grammar.SkipDouble, Grammar.NumberPart;
    assert [Leaf(ARG_INT, i, j - i, v)] + [Leaf(ARG_SELECTOR, k, 1, 0)] == [Leaf(ARG_INT, i, j - i, v), Leaf(ARG_SELECTOR, k, 1, 0)];
  }

  /** The white space, the number and the separator of a choice. */
  lemma ChoiceHeadParses(g: Grammar, i: nat, c: Choice, after: Text, doubles: nat)
    requires SettingOf(g).Usual() && SettingOf(g).Space(c.before) && SettingOf(g).Space(c.after) && c.number.Valid()
    requires c.separator in {0x23, 0x3c, 0x2264}
    requires Here(g, i, c.before + (c.number.Print() + (c.after + [c.separator])), after)
    ensures var j := i + |c.before|; var l := |c.number.Print()|; var k := j + l + |c.after|;
      && j < k + 1 <= |g.msg| && g.SkipWhiteSpace(i) == j && g.msg[j] != 0x7d && Here(g, k + 1, [], after)
      && g.ChoiceHead(j, doubles) ==
           G.Ok(G.Piece([Leaf(ARG_INT, j, l, c.number.Value()), Leaf(ARG_SELECTOR, k, 1, 0)], k + 1, doubles))
  {
    hide Here, Setting.Usual, Setting.Space, Numeral.Value, Numeral.Print, Numeral.Valid, Grammar.SkipWhiteSpace,
         Grammar.SkipDouble, Grammar.NumberPart, Grammar.ChoiceHead;
    AfterNumber(g, c.after, c.separator, after);
    SpacedNumber(g, i, c.before, c.number, c.after + [c.separator], after, true, doubles);
    var j := i + |c.before|;
    var e := j + |c.number.Print()|;
    SpaceThen(g, e, c.after, [c.separator], after);
    NextUnit(g, e + |c.after|, c.separator, after);
    ChoiceHeadAt(g, j, e, e + |c.after|, doubles, c.number.Value());
  }

  lemma NextUnit(g: Grammar, i: nat, c: Unit, after: Text)
    requires Here(g, i, [c], after)
    ensures i < |g.msg| && g.msg[i] == c && Here(g, i + 1, [], after)
  {
    HereUnit(g, i, [c], after);
    assert ([c] + after)[1..] == after && after + [] == after && [] + after == after;
  }

  lemma NumeralShort(n: Numeral)
    requires n.Valid()
    ensures |n.Print()| <= 0xffff
  {
  }

  // Selectors.

  ghost predicate ValidKey(g: Grammar, key: Key, kind: int) {
    match key
    case Keyword(word) => SettingOf(g).Identifier(word)
    case Exactly(number) => kind != 4 && number.Valid() && |number.Print()| < 0xffff
  }

  const OTHER: Text := [0x6f, 0x74, 0x68, 0x65, 0x72]

  lemma KeywordAt(g: Grammar, i: nat, e: nat, kind: int, isEmpty: bool, doubles: nat)
    requires i < e < |g.msg| && e - i <= 0xffff && kind in {3, 4, 5} && g.msg[i] != 0x3d && g.msg[e] != 0x3a
    requires g.SkipIdentifier(i) == e
    ensures var argType := TypeWithNumber(kind);
      && g.IsSelector(argType, i) && (g.IsOther(argType, i) <==> g.msg[i..e] == OTHER)
      && g.Selector(argType, i, isEmpty, doubles) == G.Ok(G.Piece([Leaf(ARG_SELECTOR, i, e - i, 0)], e, doubles))
  {
    hide Grammar.SkipIdentifier, Grammar.SkipDouble, Grammar.NumberPart;
    if e - i == 6 {
      assert g.msg[i..e + 1][6] == g.msg[e];
    }
  }

  lemma ExactlyAt(g: Grammar, i: nat, e: nat, kind: int, isEmpty: bool, doubles: nat, v: int)
    requires i + 1 < e < |g.msg| && e - i <= 0xffff && (kind == 3 || kind == 5) && g.msg[i] == 0x3d
    requires g.SkipDouble(i + 1) == e
    requires g.NumberPart(i + 1, e, false, doubles) == G.Ok(G.Piece([Leaf(ARG_INT, i + 1, e - i - 1, v)], e, doubles))
    ensures var argType := TypeWithNumber(kind);
      && g.IsSelector(argType, i) && !g.IsOther(argType, i)
      && g.Selector(argType, i, isEmpty, doubles) ==
           G.Ok(G.Piece([Leaf(ARG_SELECTOR, i, e - i, 0), Leaf(ARG_INT, i + 1, e - i - 1, v)], e, doubles))
  {
    hide Grammar.SkipIdentifier, Grammar.SkipDouble, Grammar.NumberPart;
    var first, second := Leaf(ARG_SELECTOR, i, e - i, 0), Leaf(ARG_INT, i + 1, e - i - 1, v);
    assert [first] + [second] == [first, second];
  }

  /** A selector up to what is no part of it. */
  lemma KeyParses(g: Grammar, i: nat, key: Key, kind: int, after: Text, isEmpty: bool, doubles: nat)
    requires SettingOf(g).Usual() && kind in {3, 4, 5} && ValidKey(g, key, kind) && Here(g, i, PrintKey(key), after)
    requires after != [] && after[0] in g.syntaxOrWhiteSpace && after[0] != 0x3a && !IsNumberUnit(after[0])
    ensures var argType, e := TypeWithNumber(kind), i + |PrintKey(key)|;
      && i < e < |g.msg| && g.IsSelector(argType, i) && (g.IsOther(argType, i) <==> key == Keyword(OTHER))
      && g.Selector(argType, i, isEmpty, doubles) == G.Ok(G.Piece(KeyItems(key, i), e, doubles))
  {
    hide Here, Setting.Usual, Numeral.Value, Grammar.SkipIdentifier, Grammar.SkipDouble, Grammar.NumberPart,
         Grammar.Selector, Grammar.IsSelector, Grammar.IsOther, TypeWithNumber, Numeral.Print, Numeral.Valid;
    HereSlice(g, i, PrintKey(key), after);
    match key
    case Keyword(word) =>
      UsualUnits(g, 0x3d);
      SkipWord(g, i, word, after);
      HereAt(g, i, word, after, 0);
      KeywordAt(g, i, i + |word|, kind, isEmpty, doubles);
    case Exactly(number) =>
      var t := number.Print();
      HereAt(g, i, [0x3d] + t, after, 0);
      HereSplit(g, i, [0x3d], t, after);
      NumeralParses(g, i + 1, number, after, false, doubles);
      ExactlyAt(g, i, i + 1 + |t|, kind, isEmpty, doubles, number.Value());
  }

  /** The white space and the selector in front of a message. */
  lemma CaseHeadParses(g: Grammar, i: nat, c: Case, kind: int, after: Text, isEmpty: bool, doubles: nat)
    requires SettingOf(g).Usual() && kind in {3, 4, 5} && ValidKey(g, c.key, kind)
    requires SettingOf(g).Space(c.before) && SettingOf(g).Space(c.after)
    requires Here(g, i, c.before + (PrintKey(c.key) + c.after), after) && after != [] && after[0] == 0x7b
    ensures var argType := TypeWithNumber(kind);
      var j := i + |c.before|; var e := j + |PrintKey(c.key)|; var k := e + |c.after|;
      && j < e <= k < |g.msg| && g.SkipWhiteSpace(i) == j && g.msg[j] != 0x7d
      && g.SkipWhiteSpace(e) == k && g.msg[k] == 0x7b && Here(g, k, [], after)
      && g.IsSelector(argType, j) && (g.IsOther(argType, j) <==> c.key == Keyword(OTHER))
      && g.Selector(argType, j, isEmpty, doubles) == G.Ok(G.Piece(KeyItems(c.key, j), e, doubles))
  {
    hide Here, Setting.Usual, Setting.Space, Grammar.SkipWhiteSpace, Grammar.Selector, Grammar.IsSelector, Grammar.IsOther,
         PrintKey, KeyItems, ValidKey;
    var t := PrintKey(c.key);
    var j := i + |c.before|;
    FirstOfKey(g, c.key, kind);
    AfterSpace(g, c.after, after);
    NoColon(g, c.after, after);
    SpaceThen(g, i, c.before, t + c.after, after);
    HereSplit(g, j, t, c.after, after);
    KeyParses(g, j, c.key, kind, c.after + after, isEmpty, doubles);
    SpaceEnds(g, j + |t|, c.after, after);
  }

  lemma FirstOfKey(g: Grammar, key: Key, kind: int)
    requires SettingOf(g).Usual() && ValidKey(g, key, kind)
    ensures var t := PrintKey(key); t != [] && t[0] !in g.whiteSpace && t[0] != 0x7d
  {
    hide Setting.Usual;
    UsualUnits(g, PrintKey(key)[0]);
    UsualUnits(g, 0x7d);
  }

  lemma NoColon(g: Grammar, gap: Text, after: Text)
    requires SettingOf(g).Usual() && SettingOf(g).Space(gap) && after != [] && after[0] == 0x7b
    ensures (gap + after)[0] != 0x3a
  {
    hide Setting.Usual;
    UsualUnits(g, 0x3a);
  }

  const OFFSET: Text := [0x6f, 0x66, 0x66, 0x73, 0x65, 0x74, 0x3a]

  /** The word offset and a colon. */
  lemma OffsetWord(g: Grammar, i: nat, kind: int, after: Text)
    requires SettingOf(g).Usual() && Here(g, i, OFFSET, after) && (kind == 3 || kind == 5)
    ensures i + 7 <= |g.msg| && g.msg[i] == 0x6f && g.SkipIdentifier(i) == i + 6
    ensures g.IsOffset(TypeWithNumber(kind), i) && !g.IsSelector(TypeWithNumber(kind), i)
  {
    hide Here, Setting.Usual, Grammar.SkipIdentifier;
    HereSlice(g, i, OFFSET, after);
    HereAt(g, i, OFFSET, after, 0);
    var word: Text := [0x6f, 0x66, 0x66, 0x73, 0x65, 0x74];
    assert OFFSET == word + [0x3a];
    HereSplit(g, i, word, [0x3a], after);
    forall k | 0 <= k < |word|
      ensures word[k] !in g.syntaxOrWhiteSpace
    {
      SmallLetter(g, word[k]);
    }
    UsualUnits(g, 0x3a);
    SkipWord(g, i, word, [0x3a] + after);
  }

  lemma SmallLetter(g: Grammar, c: Unit)
    requires SettingOf(g).Usual() && 0x61 <= c <= 0x7a
    ensures c !in g.syntaxOrWhiteSpace
  {
  }

  lemma OffsetAt(g: Grammar, i: nat, k: nat, e: nat, kind: int, doubles: nat, v: int)
    requires i + 7 <= k < e <= |g.msg| && g.msg[i] == 0x6f && (kind == 3 || kind == 5) && e - k <= 0xffff
    requires g.SkipIdentifier(i) == i + 6 && g.IsOffset(TypeWithNumber(kind), i)
    requires g.SkipWhiteSpace(i + 7) == k && g.SkipDouble(k) == e
    requires g.NumberPart(k, e, false, doubles) == G.Ok(G.Piece([Leaf(ARG_INT, k, e - k, v)], e, doubles))
    ensures g.Selector(TypeWithNumber(kind), i, true, doubles) == G.Ok(G.Piece([Leaf(ARG_INT, k, e - k, v)], e, doubles))
  {
    hide Grammar.SkipIdentifier, Grammar.SkipWhiteSpace, Grammar.SkipDouble, Grammar.NumberPart, Grammar.IsOffset;
  }

  /** The plural offset, with the white space before it. */
  lemma OffsetParses(g: Grammar, i: nat, offset: Offset, kind: int, after: Text, doubles: nat)
    requires SettingOf(g).Usual() && (kind == 3 || kind == 5) && offset.Offset? && SettingOf(g).ValidOffset(offset)
    requires Here(g, i, PrintOffset(offset), after) && after != [] && !IsNumberUnit(after[0])
    ensures var argType := TypeWithNumber(kind); var j := i + |offset.before|; var e := i + |PrintOffset(offset)|;
      && j < e < |g.msg| && g.SkipWhiteSpace(i) == j && g.msg[j] != 0x7d && !g.IsSelector(argType, j)
      && g.Selector(argType, j, true, doubles) == G.Ok(G.Piece(OffsetItems(offset, i), e, doubles))
  {
    hide Here, Setting.Usual, Setting.Space, Grammar.SkipWhiteSpace, Grammar.Selector, Grammar.IsSelector, Grammar.IsOffset,
         Grammar.SkipIdentifier, Grammar.SkipDouble, Grammar.NumberPart, Numeral.Value, Numeral.Print, Numeral.Valid;
    var value := offset.space + offset.number.Print();
    var j := i + |offset.before|;
    OffsetFirst(g, value, after);
    SpaceThen(g, i, offset.before, OFFSET + value, after);
    HereSplit(g, j, OFFSET, value, after);
    OffsetWord(g, j, kind, value + after);
    OffsetValue(g, j + 7, offset.space, offset.number, after, doubles);
    var k := j + 7 + |offset.space|;
    OffsetAt(g, j, k, k + |offset.number.Print()|, kind, doubles, offset.number.Value());
  }

  lemma OffsetFirst(g: Grammar, value: Text, after: Text)
    requires SettingOf(g).Usual()
    ensures var t := (OFFSET + value) + after; t != [] && t[0] == 0x6f && t[0] !in g.whiteSpace
  {
    hide Setting.Usual;
    UsualUnits(g, 0x6f);
  }

  lemma OffsetValue(g: Grammar, i: nat, space: Text, n: Numeral, after: Text, doubles: nat)
    requires SettingOf(g).Usual() && SettingOf(g).Space(space) && n.Valid() && Here(g, i, space + n.Print(), after)
    requires after != [] && !IsNumberUnit(after[0])
    ensures var k := i + |space|; var e := k + |n.Print()|;
      && k < e < |g.msg| && g.SkipWhiteSpace(i) == k && g.SkipDouble(k) == e && e - k <= 0xffff
      && g.NumberPart(k, e, false, doubles) == G.Ok(G.Piece([Leaf(ARG_INT, k, e - k, n.Value())], e, doubles))
  {
    hide Here, Setting.Usual, Setting.Space, Numeral.Value, Grammar.SkipDouble, Grammar.NumberPart, Grammar.SkipWhiteSpace,
         Numeral.Print, Numeral.Valid;
    assert n.Print() + [] == n.Print() && [] + after == after;
    SpacedNumber(g, i, space, n, [], after, false, doubles);
  }
}
