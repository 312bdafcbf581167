/** What an apostrophe does, in numbers. */
module MessageRules {
  import opened Utf16
  import opened MessageParts
  import G = MessageGrammar
  import opened AutoQuoteMeaning
  import opened MessageSyntax
  import opened MessageSkips
  import opened MessageNumbers
  import opened MessageHeads
  import opened MessageStyles
  import opened MessagePrinting
  import opened MessageQuoting

  /**
   An apostrophe in a message of an argument of type number kind, or in the pattern itself with kind 0. In front of
   another one it makes that one be skipped. In front of a brace, and of a vertical bar in a choice message, of a number
   sign in a plural or selectordinal message, or of any unit in the mode where apostrophes must be doubled, it is skipped
   and starts quoted text. Everywhere else it is literal text behind which another one can be inserted.
   */
  lemma ApostropheRule(g: Grammar, i: nat, kind: int, nesting: nat, doubles: nat)
    requires i < |g.msg| && g.msg[i] == 0x27 && 0 <= kind <= 5 && (kind == 0 <==> nesting == 0)
    ensures var body := g.MessageBody(i, nesting, TypeWithNumber(kind), doubles);
      var next := if i + 1 < |g.msg| then g.msg[i + 1] as int else -1;
      var starts := next >= 0 && (g.doubleRequired || next == 0x7b || next == 0x7d || (kind == 2 && next == 0x7c)
                                  || ((kind == 3 || kind == 5) && next == 0x23));
      var first := if next == 0x27 then Leaf(SKIP_SYNTAX, i + 1, 1, 0)
                   else if starts then Leaf(SKIP_SYNTAX, i, 1, 0)
                   else Leaf(INSERT_CHAR, i + 1, 0, 0x27);
      body.Ok? ==> body.value.items != [] && body.value.items[0] == first
  {
    hide Grammar.MessageBody, Grammar.Text, Grammar.EndsMessage, Grammar.Quoted;
    TextAt(g, i, kind, nesting);
    BodyText(g, i, nesting, TypeWithNumber(kind), doubles);
  }

  /** A message without apostrophes in quoted braces has no argument, and auto-quoting does not change it. */
  lemma QuotedBrace(g: Grammar, t: Text)
    requires SettingOf(g).Usual() && 0x27 !in t && g.msg == [0x27, 0x7b] + t + [0x27]
    ensures g.Pattern().Ok? && AutoQuoted(g, g.doubleRequired).msg == g.msg
    ensures Flatten(g.Pattern().value.items, 0) ==
      [Part(MSG_START, 0, 0, 0, 3), Part(SKIP_SYNTAX, 0, 1, 0, 0), Part(SKIP_SYNTAX, |t| + 2, 1, 0, 0),
       Part(MSG_LIMIT, |t| + 3, 0, 0, 0)]
  {
    hide Setting.Usual, Grammar.Message;
    var nodes := [Quoted([[0x7b] + t])];
    assert nodes[1..] == [];
    assert Print(nodes) == g.msg;
    assert SettingOf(g).Valid(nodes, 0, 0, []);
    PatternParses(g, nodes);
    AutoQuotedTree(g, nodes, g.doubleRequired);
    assert Doubling(nodes) == nodes;
    QuotedParts(t);
  }

  lemma QuotedParts(t: Text)
    ensures var nodes := [Quoted([[0x7b] + t])];
      Flatten(PatternItems(nodes), 0) ==
        [Part(MSG_START, 0, 0, 0, 3), Part(SKIP_SYNTAX, 0, 1, 0, 0), Part(SKIP_SYNTAX, |t| + 2, 1, 0, 0),
         Part(MSG_LIMIT, |t| + 3, 0, 0, 0)]
  {
    var nodes := [Quoted([[0x7b] + t])];
    var first, last := Leaf(SKIP_SYNTAX, 0, 1, 0), Leaf(SKIP_SYNTAX, |t| + 2, 1, 0);
    assert nodes[1..] == [];
    assert Items(nodes, 0, 0) == [first, last] && |Print(nodes)| == |t| + 3;
    TwoLeaves(first, last);
    FlattenOne(PatternItems(nodes)[0], 0);
    var inner := Flatten([first, last], 1);
    assert FlattenItem(PatternItems(nodes)[0], 0) ==
      [Part(MSG_START, 0, 0, 0, 1 + |inner|)] + inner + [Part(MSG_LIMIT, |t| + 3, 0, 0, 0)];
  }

  lemma TwoLeaves(first: Item, last: Item)
    requires first.Leaf? && last.Leaf?
    ensures Flatten([first, last], 1) == [FlattenItem(first, 1)[0], FlattenItem(last, 2)[0]]
  {
    assert [first, last] == [first] + [last];
    FlattenAppend([first], [last], 1);
    FlattenOne(first, 1);
    FlattenOne(last, 2);
  }

  const PLURAL: Text := [0x70, 0x6c, 0x75, 0x72, 0x61, 0x6c]

  function OtherCase(): Case {
    Case([], Keyword([0x6f, 0x74, 0x68, 0x65, 0x72]), [], [NumberSign])
  }

  /** The argument n of type plural with one message, which is a number sign. */
  function PluralArgument(): Node {
    Argument([], Word([0x6e]), [], Typed([], PLURAL, [], KeyedStyle(NoOffset, [OtherCase()], [])))
  }

  /** The number sign of a plural message is replaced, in {n,plural,other{#}}. */
  lemma PluralExample(g: Grammar)
    requires SettingOf(g).Usual()
    requires g.msg == [0x7b, 0x6e, 0x2c] + PLURAL + [0x2c, 0x6f, 0x74, 0x68, 0x65, 0x72, 0x7b, 0x23, 0x7d, 0x7d]
    ensures g.Pattern().Ok?
    ensures g.Pattern().value.items ==
      [Group(true, 0, 0, 0,
        [Group(false, 0, 1, 3,
          [Leaf(ARG_NAME, 1, 1, 0), Leaf(ARG_SELECTOR, 10, 5, 0), Group(true, 15, 1, 1, [Leaf(REPLACE_NUMBER, 16, 1, 0)], 17, 1)],
          18, 1)],
        19, 0)]
  {
    hide Setting.Usual, Setting.ValidNode, Grammar.Message, PrintNode, NodeItems;
    var n := PluralArgument();
    PluralText();
    PluralItems();
    PluralValid(g);
    assert [n][1..] == [];
    assert Print([n]) == PrintNode(n) && Items([n], 0, 0) == NodeItems(n, 0, 0);
    assert Print([n][1..]) + [] == [];
    PatternParses(g, [n]);
  }

  lemma OtherText()
    ensures PrintCase(OtherCase()) == [0x6f, 0x74, 0x68, 0x65, 0x72, 0x7b, 0x23, 0x7d]
    ensures OneCase(OtherCase(), 10, 0) ==
      [Leaf(ARG_SELECTOR, 10, 5, 0), Group(true, 15, 1, 1, [Leaf(REPLACE_NUMBER, 16, 1, 0)], 17, 1)]
  {
    var nodes := [NumberSign];
    assert nodes[1..] == [];
    assert Print(nodes) == [0x23] && Items(nodes, 16, 1) == [Leaf(REPLACE_NUMBER, 16, 1, 0)];
  }

  lemma OneCaseOnly(c: Case, i: nat)
    ensures PrintCases([c]) == PrintCase(c) && CaseItems([c], i, 0) == OneCase(c, i, 0)
  {
    hide PrintCase, OneCase;
    assert [c][1..] == [];
  }

  lemma PluralSpelled()
    ensures TypeNumber(PLURAL) == 3
  {
    assert PLURAL[0] == 0x70;
  }

  lemma PluralText()
    ensures PrintNode(PluralArgument()) ==
      [0x7b, 0x6e, 0x2c] + PLURAL + [0x2c, 0x6f, 0x74, 0x68, 0x65, 0x72, 0x7b, 0x23, 0x7d, 0x7d]
  {
    hide PrintCases, PrintCase;
    OtherText();
    OneCaseOnly(OtherCase(), 10);
  }

  lemma PluralItems()
    ensures NodeItems(PluralArgument(), 0, 0) ==
      [Group(false, 0, 1, 3,
        [Leaf(ARG_NAME, 1, 1, 0), Leaf(ARG_SELECTOR, 10, 5, 0), Group(true, 15, 1, 1, [Leaf(REPLACE_NUMBER, 16, 1, 0)], 17, 1)],
        18, 1)]
  {
    hide PrintCases, PrintCase, CaseItems, OneCase, TypeNumber;
    OtherText();
    OneCaseOnly(OtherCase(), 10);
    PluralSpelled();
    var n, items := PluralArgument(), OneCase(OtherCase(), 10, 0);
    assert RestItems(n.style.rest, 9, 0) == items;
    assert StyleItems(n.style, 2, 0) == items;
    assert [NameItem(n.name, 1)] + items == [Leaf(ARG_NAME, 1, 1, 0), items[0], items[1]];
  }

  lemma PluralValid(g: Grammar)
    requires SettingOf(g).Usual()
    ensures SettingOf(g).ValidNode(PluralArgument(), 0, 0, [])
  {
    hide TypeNumber, Setting.Usual, Setting.ValidKeyed;
    PluralSpelled();
    PluralName(g);
    OtherValid(g);
    assert [OtherCase()][0].key == Keyword([0x6f, 0x74, 0x68, 0x65, 0x72]);
    assert HasOther([OtherCase()]);
    assert forall k :: 0 <= k < |PLURAL| ==> 0x61 <= PLURAL[k] <= 0x7a;
  }

  lemma PluralName(g: Grammar)
    requires SettingOf(g).Usual()
    ensures SettingOf(g).ValidName(Word([0x6e]))
  {
    var word: Text := [0x6e];
    SmallLetter(g, word[0]);
    assert !AreDigits(word);
  }

  lemma OtherValid(g: Grammar)
    requires SettingOf(g).Usual()
    ensures SettingOf(g).ValidKeyed(NoOffset, [OtherCase()], [], 3, 0)
  {
    hide Setting.Usual;
    var word: Text := [0x6f, 0x74, 0x68, 0x65, 0x72];
    forall k | 0 <= k < |word|
      ensures word[k] !in g.syntaxOrWhiteSpace
    {
      SmallLetter(g, word[k]);
    }
    assert [OtherCase()][1..] == [] && [NumberSign][1..] == [];
    assert SettingOf(g).ValidCase(OtherCase(), 3, 0);
  }
}
