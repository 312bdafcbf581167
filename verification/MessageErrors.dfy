/** Patterns which are errors: valid pieces, and then an argument which is not valid. */
module MessageErrors {
  import opened Utf16
  import opened MessageParts
  import G = MessageGrammar
  import opened MessageSyntax
  import opened MessageSkips
  import opened MessageNumbers
  import opened MessageHeads
  import opened MessageStyles
  import opened MessagePrinting

  /** Valid pieces in front of an argument. */
  ghost predicate Begins(g: Grammar, nodes: seq<Node>, argument: Text, after: Text) {
    && SettingOf(g).Usual() && argument != [] && argument[0] == 0x7b && SettingOf(g).Valid(nodes, 0, 0, argument)
    && g.msg == Print(nodes) + (argument + after)
  }

  /** The whole pattern has the error of the argument. */
  lemma ArgumentFails(g: Grammar, nodes: seq<Node>, argument: Text, after: Text)
    requires Begins(g, nodes, argument, after)
    ensures var i := |Print(nodes)|;
      && i < |g.msg| && g.msg[i] == 0x7b && Here(g, i, argument, after)
      && (g.ArgHead(i + 1).Fail? ==> g.Pattern() == G.Fail(g.ArgHead(i + 1).error))
      && (g.Argument(i, 0, 0).Fail? ==> g.Pattern() == G.Fail(g.Argument(i, 0, 0).error))
  {
    hide Setting.Usual, Setting.Valid, Print, Items, Here, Grammar.MessageBody, Grammar.ArgHead, Grammar.ArgStyle;
    var i := |Print(nodes)|;
    StartHere(g, Print(nodes), argument + after);
    HereAt(g, i, argument, after, 0);
    ValidBefore(g, nodes, 0, 0, argument, argument + after);
    PiecesFirst(g, 0, nodes, 0, 0, argument + after, 0);
    BodyAt(g, i);
  }

  lemma StartHere(g: Grammar, a: Text, b: Text)
    requires g.msg == a + b
    ensures Here(g, 0, a, b)
    ensures forall c, d :: b == c + d ==> Here(g, |a|, c, d)
  {
    assert g.msg[0..] == g.msg;
    assert g.msg[|a|..] == b;
  }

  lemma BodyAt(g: Grammar, i: nat)
    requires i < |g.msg| && g.msg[i] == 0x7b
    ensures g.ArgHead(i + 1).Fail? ==> g.Argument(i, 0, 0) == G.Fail(g.ArgHead(i + 1).error)
    ensures g.Argument(i, 0, 0).Fail? ==> g.MessageBody(i, 0, G.NONE, 0) == G.Fail(g.Argument(i, 0, 0).error)
  {
    hide Grammar.ArgHead, Grammar.ArgStyle;
  }

  /** A pattern which ends behind an opening brace, or behind the name after it, has unmatched braces. */
  lemma EndsInName(g: Grammar, nodes: seq<Node>, space: Text, name: Name, gap: Text)
    requires SettingOf(g).Space(space) && SettingOf(g).ValidName(name) && SettingOf(g).Space(gap)
    ensures Begins(g, nodes, [0x7b] + space, []) ==> g.Pattern() == G.Fail(G.UNMATCHED_BRACES)
    ensures Begins(g, nodes, [0x7b] + (space + (PrintName(name) + gap)), []) ==> g.Pattern() == G.Fail(G.UNMATCHED_BRACES)
  {
    hide Begins, Setting.Space, Setting.ValidName, Grammar.Message, PrintName, Here;
    var i, named := |Print(nodes)|, space + (PrintName(name) + gap);
    if Begins(g, nodes, [0x7b] + space, []) {
      ArgumentFails(g, nodes, [0x7b] + space, []);
      HereSplit(g, i, [0x7b], space, []);
      SkipSpace(g, i + 1, space, []);
      HereSlice(g, i + 1, space, []);
    }
    if Begins(g, nodes, [0x7b] + named, []) {
      ArgumentFails(g, nodes, [0x7b] + named, []);
      HereSplit(g, i, [0x7b], named, []);
      UsualSetting(g, nodes, [0x7b] + named, []);
      NameEnds(g, i + 1, space, name, gap);
    }
  }

  lemma UsualSetting(g: Grammar, nodes: seq<Node>, argument: Text, after: Text)
    requires Begins(g, nodes, argument, after)
    ensures SettingOf(g).Usual()
  {
  }

  lemma NameEnds(g: Grammar, i: nat, space: Text, name: Name, gap: Text)
    requires SettingOf(g).Usual() && SettingOf(g).Space(space) && SettingOf(g).ValidName(name) && SettingOf(g).Space(gap)
    requires Here(g, i, space + (PrintName(name) + gap), [])
    ensures g.ArgHead(i) == G.Fail(G.UNMATCHED_BRACES)
  {
    hide Setting.Usual, Setting.Space, Setting.ValidName, PrintName, NameItem, Here, Grammar.SkipWhiteSpace, Grammar.ArgName,
         Grammar.ArgHead;
    var t := PrintName(name);
    var j := i + |space|;
    FirstOfName(g, name);
    SpaceThen(g, i, space, t + gap, []);
    HereSplit(g, j, t, gap, []);
    GapUnit(g, gap);
    NameParses(g, j, name, gap + []);
    SkipSpace(g, j + |t|, gap, []);
    HereSlice(g, j + |t|, gap, []);
    ArgHeadEnd(g, i, j, j + |t|, NameItem(name, j));
  }

  lemma GapUnit(g: Grammar, gap: Text)
    requires SettingOf(g).Usual() && SettingOf(g).Space(gap)
    ensures gap + [] == gap && (gap == [] || gap[0] in g.syntaxOrWhiteSpace)
  {
    hide Setting.Usual;
    if gap != [] {
      UsualUnits(g, gap[0]);
    }
  }

  lemma ArgHeadEnd(g: Grammar, i: nat, j: nat, k: nat, item: Item)
    requires i <= j < |g.msg| && j <= k <= |g.msg| && g.SkipWhiteSpace(i) == j
    requires g.ArgName(j) == G.Ok(G.Piece([item], k, 0)) && g.SkipWhiteSpace(k) == |g.msg|
    ensures g.ArgHead(i) == G.Fail(G.UNMATCHED_BRACES)
  {
    hide Grammar.SkipWhiteSpace, Grammar.ArgName, Grammar.ArgTypeName;
  }

  /** A number with leading zeros, or above 7fffffff, is a syntax error; another one above 7fff is out of bounds. */
  lemma BadNumber(g: Grammar, nodes: seq<Node>, space: Text, digits: Text, gap: Text, after: Text)
    requires SettingOf(g).Space(space) && SettingOf(g).Space(gap) && digits != [] && AreDigits(digits)
    requires Begins(g, nodes, [0x7b] + (space + (digits + (gap + [0x7d]))), after)
    ensures (digits[0] == 0x30 && |digits| > 1) || Decimal(digits[..|digits| - 1]) >= 214748364 ==>
              g.Pattern() == G.Fail(G.PATTERN_SYNTAX)
    ensures digits[0] != 0x30 && Decimal(digits[..|digits| - 1]) < 214748364 && Decimal(digits) > 0x7fff ==>
              g.Pattern() == G.Fail(G.INDEX_OUTOFBOUNDS)
  {
    hide Begins, Setting.Space, Grammar.Message, Here, Decimal, Grammar.ArgHead;
    var i, tail := |Print(nodes)|, gap + [0x7d];
    var inner := space + (digits + tail);
    ArgumentFails(g, nodes, [0x7b] + inner, after);
    HereSplit(g, i, [0x7b], inner, after);
    UsualSetting(g, nodes, [0x7b] + inner, after);
    NumberHead(g, i + 1, space, digits, tail, after) by {
      TailUnit(g, gap, after);
    }
  }

  lemma TailUnit(g: Grammar, gap: Text, after: Text)
    requires SettingOf(g).Usual() && SettingOf(g).Space(gap)
    ensures var t := (gap + [0x7d]) + after; t != [] && t[0] in g.syntaxOrWhiteSpace
  {
    hide Setting.Usual;
    UsualUnits(g, ((gap + [0x7d]) + after)[0]);
  }

  lemma NumberHead(g: Grammar, i: nat, space: Text, digits: Text, tail: Text, after: Text)
    requires SettingOf(g).Usual() && SettingOf(g).Space(space) && digits != [] && AreDigits(digits)
    requires Here(g, i, space + (digits + tail), after) && tail + after != [] && (tail + after)[0] in g.syntaxOrWhiteSpace
    ensures i <= |g.msg|
    ensures (digits[0] == 0x30 && |digits| > 1) || Decimal(digits[..|digits| - 1]) >= 214748364 ==>
              g.ArgHead(i) == G.Fail(G.PATTERN_SYNTAX)
    ensures digits[0] != 0x30 && Decimal(digits[..|digits| - 1]) < 214748364 && Decimal(digits) > 0x7fff ==>
              g.ArgHead(i) == G.Fail(G.INDEX_OUTOFBOUNDS)
  {
    hide Setting.Usual, Setting.Space, Here, Decimal, Grammar.ArgName, Grammar.SkipWhiteSpace;
    forall k | 0 <= k < |digits|
      ensures digits[k] !in g.syntaxOrWhiteSpace
    {
      DigitUnit(g, digits[k]);
    }
    UsualUnits(g, digits[0]);
    SpaceThen(g, i, space, digits + tail, after);
    HereSplit(g, i + |space|, digits, tail, after);
    NameRule(g, i + |space|, digits, tail + after);
  }

  /** A choice, plural, select or selectordinal argument without a style is a syntax error. */
  lemma NeedsStyle(g: Grammar, nodes: seq<Node>, n: Node, after: Text)
    requires ValidHead(g, n) && n.style.Typed? && n.style.rest.NoStyle? && TypeNumber(n.style.letters) != 1
    requires Begins(g, nodes, PrintNode(n), after)
    ensures g.Pattern() == G.Fail(G.PATTERN_SYNTAX)
  {
    hide Setting.Usual, Setting.Valid, Print, PrintNode, Here, ValidHead, Grammar.ArgHead, Grammar.Argument, Grammar.Message,
         TypeNumber;
    ArgumentFails(g, nodes, PrintNode(n), after);
    HeadParses(g, |Print(nodes)|, n, after);
  }

  /** A plural, select or selectordinal argument without the selector other lacks its default. */
  lemma NeedsOther(g: Grammar, nodes: seq<Node>, n: Node, after: Text)
    requires ValidHead(g, n) && n.style.Typed? && n.style.rest.KeyedStyle? && !HasOther(n.style.rest.cases)
    requires var rest := n.style.rest;
      SettingOf(g).ValidKeyed(rest.offset, rest.cases, rest.last, TypeNumber(n.style.letters), 0)
    requires Begins(g, nodes, PrintNode(n), after)
    ensures g.Pattern() == G.Fail(G.DEFAULT_KEYWORD_MISSING)
  {
    hide Begins, Print, PrintNode, PrintRest, PrintName, Here, Setting.Space, Setting.ValidName, Setting.ValidKeyed, HasOther, Grammar.ArgHead,
         Grammar.Argument, Grammar.ArgStyle, Grammar.Message, TypeNumber, TypeWithNumber;
    var i, style := |Print(nodes)|, n.style;
    var rest, kind := style.rest, TypeNumber(style.letters);
    ArgumentFails(g, nodes, PrintNode(n), after);
    UsualSetting(g, nodes, PrintNode(n), after);
    HeadParses(g, i, n, after);
    KeyedKind(g, rest.offset, rest.cases, rest.last, kind, 0);
    var k := i + 1 + |n.space| + |PrintName(n.name)| + |n.after| + 1 + |style.before| + |style.letters| + |style.after|;
    KeyedStyleParses(g, k, rest.offset, rest.cases, rest.last, kind, 0, after, 0);
    StyleFails(g, i);
  }

  lemma StyleFails(g: Grammar, i: nat)
    requires i < |g.msg| && g.ArgHead(i + 1).Ok? && g.ArgHead(i + 1).value.comma
    ensures var head := g.ArgHead(i + 1).value; var style := g.ArgStyle(head.argType, head.next, 0, 0);
      style.Fail? ==> g.Argument(i, 0, 0) == G.Fail(style.error)
  {
    hide Grammar.ArgHead, Grammar.ArgStyle;
  }

  /** A message in an argument which the pattern ends in has unmatched braces. */
  lemma NestedEnd(g: Grammar, i: nat, nodes: seq<Node>, kind: int, nesting: nat, doubles: nat)
    requires SettingOf(g).Usual() && SettingOf(g).Valid(nodes, kind, nesting, []) && 1 <= kind <= 5 && nesting > 0
    requires Here(g, i, Print(nodes), [])
    ensures i <= |g.msg| && g.MessageBody(i, nesting, TypeWithNumber(kind), doubles) == G.Fail(G.UNMATCHED_BRACES)
  {
    hide Setting.Usual, Setting.Valid, Print, Items, Here;
    HereSlice(g, i, Print(nodes), []);
    PiecesFirst(g, i, nodes, kind, nesting, [], doubles);
  }
}
