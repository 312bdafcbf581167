/** A printed tree is parsed back to exactly its items. */
module MessagePrinting {
  import opened Basics
  import opened Utf16
  import opened MessageParts
  import G = MessageGrammar
  import opened MessageSyntax
  import opened MessageSkips
  import opened MessageNumbers
  import opened MessageHeads
  import opened MessageStyles

  /** Does a message in an argument of this kind end in front of this text? The pattern itself ends at its end. */
  ghost predicate Ends(kind: int, nesting: nat, after: Text) {
    if kind == 0 then nesting == 0 && after == []
    else kind in {2, 3, 4, 5} && nesting > 0 && after != [] && (after[0] == 0x7d || (kind == 2 && after[0] == 0x7c))
  }

  /** The body of a message with these items which ends at e. */
  function BodyOf(items: seq<Item>, e: nat, kind: int, after: Text, doubles: nat): G.Body {
    if after == [] then G.Body(items, e, 0, e, doubles)
    else if kind == 2 then G.Body(items, e, if after[0] == 0x7d then 0 else 1, e, doubles)
    else G.Body(items, e, 1, e + 1, doubles)
  }

  // One step of the grammar each.

  lemma BodyText(g: Grammar, i: nat, nesting: nat, parent: G.ArgType, doubles: nat)
    requires i < |g.msg| && g.msg[i] != 0x7b && !g.EndsMessage(i, nesting, parent)
    ensures g.MessageBody(i, nesting, parent, doubles) ==
      G.Prefixed(g.Text(i, parent).0, g.MessageBody(g.Text(i, parent).1, nesting, parent, doubles))
  {
    hide Grammar.Text, Grammar.Argument, Grammar.EndsMessage;
  }

  lemma BodyArgument(g: Grammar, i: nat, nesting: nat, parent: G.ArgType, doubles: nat, first: G.Piece)
    requires i < |g.msg| && g.msg[i] == 0x7b && g.Argument(i, nesting, doubles) == G.Ok(first)
    ensures g.MessageBody(i, nesting, parent, doubles) ==
      G.Prefixed(first.items, g.MessageBody(first.next, nesting, parent, first.doubles))
  {
    hide Grammar.Text, Grammar.Argument, Grammar.EndsMessage;
  }

  lemma BodyEnd(g: Grammar, i: nat, nesting: nat, kind: int, after: Text, doubles: nat)
    requires Here(g, i, [], after) && Ends(kind, nesting, after)
    ensures g.MessageBody(i, nesting, TypeWithNumber(kind), doubles) == G.Ok(BodyOf([], i, kind, after, doubles))
  {
    hide Here, Grammar.Text, Grammar.Argument;
    HereSlice(g, i, [], after);
  }

  lemma PrefixedOf(a: seq<Item>, b: seq<Item>, e: nat, kind: int, after: Text, doubles: nat)
    ensures G.Prefixed(a, G.Ok(BodyOf(b, e, kind, after, doubles))) == G.Ok(BodyOf(a + b, e, kind, after, doubles))
  {
  }

  lemma MessageAt(g: Grammar, i: nat, startLength: nat, nesting: nat, parent: G.ArgType, doubles: nat, b: G.Body)
    requires i + startLength <= |g.msg| && nesting <= 0x7fff
    requires g.MessageBody(i + startLength, nesting, parent, doubles) == G.Ok(b)
    ensures g.Message(i, startLength, nesting, parent, doubles) ==
      G.Ok(G.Piece([Group(true, i, startLength, nesting, b.items, b.limitIndex, b.limitLength)], b.next, b.doubles))
  {
    hide Grammar.MessageBody;
  }

  lemma ArgumentAt(g: Grammar, i: nat, nesting: nat, doubles: nat, items: seq<Item>, kind: int, e: nat)
    requires i < |g.msg| && 0 <= kind <= 5 && g.ArgHead(i + 1) == G.Ok(G.Head(items, TypeWithNumber(kind), false, e))
    ensures g.Argument(i, nesting, doubles) == G.Ok(G.Piece([Group(false, i, 1, kind, items, e, 1)], e + 1, doubles))
  {
    hide Grammar.ArgHead, Grammar.ArgStyle;
  }

  lemma StyledArgumentAt(g: Grammar, i: nat, nesting: nat, doubles: nat, items: seq<Item>, kind: int, k: nat, style: G.Piece)
    requires i < |g.msg| && 1 <= kind <= 5 && g.ArgHead(i + 1) == G.Ok(G.Head(items, TypeWithNumber(kind), true, k))
    requires g.ArgStyle(TypeWithNumber(kind), k, nesting, doubles) == G.Ok(style)
    ensures g.Argument(i, nesting, doubles) ==
      G.Ok(G.Piece([Group(false, i, 1, kind, items + style.items, style.next, 1)], style.next + 1, style.doubles))
  {
    hide Grammar.ArgHead, Grammar.ArgStyle;
  }

  lemma ChoiceAt(g: Grammar, j: nat, nesting: nat, doubles: nat, head: G.Piece, message: G.Piece)
    requires j <= |g.msg| && g.ChoiceHead(j, doubles) == G.Ok(head)
    requires g.Message(head.next, 0, nesting + 1, G.CHOICE, head.doubles) == G.Ok(message)
    ensures message.next < |g.msg|
    ensures g.ChoiceStyle(j, nesting, doubles) ==
      if g.msg[message.next] == 0x7d then G.Ok(G.Piece(head.items + message.items, message.next, message.doubles))
      else G.PrefixedPiece(head.items + message.items,
                           g.ChoiceStyle(g.SkipWhiteSpace(message.next + 1), nesting, message.doubles))
  {
    hide Grammar.ChoiceHead, Grammar.Message, Grammar.SkipWhiteSpace;
  }

  lemma KeyedAt(g: Grammar, argType: G.ArgType, i: nat, j: nat, k: nat, nesting: nat, isEmpty: bool, hasOther: bool, doubles: nat,
                head: G.Piece, message: G.Piece)
    requires i <= j < |g.msg| && g.SkipWhiteSpace(i) == j && g.msg[j] != 0x7d
    requires g.Selector(argType, j, isEmpty, doubles) == G.Ok(head) && g.IsSelector(argType, j)
    requires g.SkipWhiteSpace(head.next) == k < |g.msg| && g.msg[k] == 0x7b
    requires g.Message(k, 1, nesting + 1, argType, head.doubles) == G.Ok(message)
    ensures g.PluralOrSelectStyle(argType, i, nesting, isEmpty, hasOther, doubles) ==
      G.PrefixedPiece(head.items + message.items,
        g.PluralOrSelectStyle(argType, message.next, nesting, false, hasOther || g.IsOther(argType, j), message.doubles))
  {
    hide Grammar.Selector, Grammar.IsSelector, Grammar.IsOther, Grammar.Message, Grammar.SkipWhiteSpace;
  }

  lemma OffsetStep(g: Grammar, argType: G.ArgType, i: nat, j: nat, nesting: nat, doubles: nat, head: G.Piece)
    requires i <= j < |g.msg| && g.SkipWhiteSpace(i) == j && g.msg[j] != 0x7d
    requires g.Selector(argType, j, true, doubles) == G.Ok(head) && !g.IsSelector(argType, j)
    ensures g.PluralOrSelectStyle(argType, i, nesting, true, false, doubles) ==
      G.PrefixedPiece(head.items, g.PluralOrSelectStyle(argType, head.next, nesting, false, false, head.doubles))
  {
    hide Grammar.Selector, Grammar.IsSelector, Grammar.IsOther, Grammar.Message, Grammar.SkipWhiteSpace;
  }

  lemma KeyedEnd(g: Grammar, argType: G.ArgType, i: nat, last: Text, nesting: nat, isEmpty: bool, hasOther: bool, doubles: nat,
                 after: Text)
    requires SettingOf(g).Usual() && SettingOf(g).Space(last) && Here(g, i, last, after) && after != [] && after[0] == 0x7d
    ensures g.PluralOrSelectStyle(argType, i, nesting, isEmpty, hasOther, doubles) ==
      if hasOther then G.Ok(G.Piece([], i + |last|, doubles)) else G.Fail(G.DEFAULT_KEYWORD_MISSING)
  {
    hide Here, Setting.Usual, Grammar.Selector, Grammar.IsSelector, Grammar.IsOther, Grammar.Message, Grammar.SkipWhiteSpace;
    UsualUnits(g, 0x7d);
    SpaceEnds(g, i, last, after);
  }

  /** Validity depends on nothing but the first unit after a message. */
  lemma {:induction false} ValidBefore(g: Grammar, nodes: seq<Node>, kind: int, nesting: nat, a: Text, b: Text)
    requires SettingOf(g).Valid(nodes, kind, nesting, a) && a != [] && b != [] && a[0] == b[0]
    ensures SettingOf(g).Valid(nodes, kind, nesting, b)
    decreases |nodes|
  {
    hide Setting.ValidName, Setting.ValidStyle, Setting.QuotedTexts, Setting.Starts, Setting.Space;
    if nodes != [] {
      ValidBefore(g, nodes[1..], kind, nesting, a, b);
    }
  }

  // Trees.

  /** The pieces of a message are parsed to their items, and then the rest of the message. */
  lemma {:induction false} PiecesFirst(g: Grammar, i: nat, nodes: seq<Node>, kind: int, nesting: nat, after: Text, doubles: nat)
    requires SettingOf(g).Usual() && SettingOf(g).Valid(nodes, kind, nesting, after)
    requires 0 <= kind <= 5 && (kind == 0 <==> nesting == 0) && Here(g, i, Print(nodes), after)
    ensures i + |Print(nodes)| <= |g.msg|
    ensures var argType := TypeWithNumber(kind);
      g.MessageBody(i, nesting, argType, doubles) ==
        G.Prefixed(Items(nodes, i, nesting), g.MessageBody(i + |Print(nodes)|, nesting, argType, doubles))
    decreases nodes, 0
  {
    hide Here, Setting.Usual, Setting.ValidNode, PrintNode, NodeItems, Grammar.MessageBody;
    HereSlice(g, i, Print(nodes), after);
    var argType := TypeWithNumber(kind);
    if nodes == [] {
      PrefixedNothing(g.MessageBody(i, nesting, argType, doubles));
    } else {
      var n := nodes[0];
      var t, rest := PrintNode(n), Print(nodes[1..]);
      var e := i + |t|;
      HereSplit(g, i, t, rest, after);
      PieceFirst(g, i, n, kind, nesting, rest + after, doubles);
      PiecesFirst(g, e, nodes[1..], kind, nesting, after, doubles);
      PrefixedAgain(NodeItems(n, i, nesting), Items(nodes[1..], e, nesting),
                    g.MessageBody(e + |rest|, nesting, argType, doubles));
    }
  }

  lemma {:induction false} PieceFirst(g: Grammar, i: nat, n: Node, kind: int, nesting: nat, after: Text, doubles: nat)
    requires SettingOf(g).Usual() && SettingOf(g).ValidNode(n, kind, nesting, after)
    requires 0 <= kind <= 5 && (kind == 0 <==> nesting == 0) && Here(g, i, PrintNode(n), after)
    ensures i + |PrintNode(n)| <= |g.msg|
    ensures var argType := TypeWithNumber(kind);
      g.MessageBody(i, nesting, argType, doubles) ==
        G.Prefixed(NodeItems(n, i, nesting), g.MessageBody(i + |PrintNode(n)|, nesting, argType, doubles))
    decreases n, 2
  {
    hide Here, Setting.Usual, Setting.ValidNode, PrintNode, NodeItems, Grammar.MessageBody, Grammar.Argument, Grammar.Text,
         Grammar.EndsMessage, TypeWithNumber;
    var argType := TypeWithNumber(kind);
    HereSlice(g, i, PrintNode(n), after);
    if n.Argument? {
      ArgumentParses(g, i, n, kind, nesting, after, doubles);
      BodyArgument(g, i, nesting, argType, doubles, G.Piece(NodeItems(n, i, nesting), i + |PrintNode(n)|, doubles));
    } else {
      TextParses(g, i, n, kind, nesting, after);
      BodyText(g, i, nesting, argType, doubles);
    }
  }

  lemma PrefixedNothing(r: G.Outcome<G.Body>)
    ensures G.Prefixed([], r) == r
  {
    if r.Ok? {
      assert [] + r.value.items == r.value.items;
    }
  }

  lemma PrefixedAgain(a: seq<Item>, b: seq<Item>, r: G.Outcome<G.Body>)
    ensures G.Prefixed(a, G.Prefixed(b, r)) == G.Prefixed(a + b, r)
  {
    if r.Ok? {
      Associate(a, b, r.value.items);
    }
  }

  /** A message is parsed to its items, up to its end. */
  lemma {:induction false} BodyParses(g: Grammar, i: nat, nodes: seq<Node>, kind: int, nesting: nat, after: Text, doubles: nat)
    requires SettingOf(g).Usual() && SettingOf(g).Valid(nodes, kind, nesting, after) && Ends(kind, nesting, after)
    requires Here(g, i, Print(nodes), after)
    ensures i + |Print(nodes)| <= |g.msg|
    ensures g.MessageBody(i, nesting, TypeWithNumber(kind), doubles) ==
      G.Ok(BodyOf(Items(nodes, i, nesting), i + |Print(nodes)|, kind, after, doubles))
    decreases nodes, 1
  {
    hide Here, Setting.Usual, Setting.Valid, Print, Items, Grammar.MessageBody;
    PiecesFirst(g, i, nodes, kind, nesting, after, doubles);
    var t := Print(nodes);
    assert t + [] == t;
    HereSplit(g, i, t, [], after);
    BodyEnd(g, i + |t|, nesting, kind, after, doubles);
    PrefixedOf(Items(nodes, i, nesting), [], i + |t|, kind, after, doubles);
    assert Items(nodes, i, nesting) + [] == Items(nodes, i, nesting);
  }

  lemma {:induction false} ArgumentParses(g: Grammar, i: nat, n: Node, kind: int, nesting: nat, after: Text, doubles: nat)
    requires SettingOf(g).Usual() && n.Argument? && SettingOf(g).ValidNode(n, kind, nesting, after)
    requires Here(g, i, PrintNode(n), after)
    ensures i < |g.msg| && g.msg[i] == 0x7b
    ensures g.Argument(i, nesting, doubles) == G.Ok(G.Piece(NodeItems(n, i, nesting), i + |PrintNode(n)|, doubles))
    decreases n, 1
  {
    hide Here, Setting.Usual, Setting.Space, Setting.ValidName, Setting.ValidRest, PrintRest, PrintName, NameItem, RestItems,
         Grammar.Argument, Grammar.ArgHead, Grammar.ArgStyle, TypeNumber, TypeWithNumber;
    assert ValidHead(g, n);
    HeadParses(g, i, n, after);
    if n.style.Typed? {
      RestKind(g, n.style.rest, TypeNumber(n.style.letters), nesting);
    }
    var name := NameItem(n.name, i + 1 + |n.space|);
    var j := i + 1 + |n.space| + |PrintName(n.name)| + |n.after|;
    if n.style.NoType? {
      NoneIsZero();
      ArgumentAt(g, i, nesting, doubles, [name], 0, j);
      assert [name] + [] == [name];
    } else {
      var style := n.style;
      var kind, rest := TypeNumber(style.letters), style.rest;
      var typed := if kind == 1 then [Leaf(ARG_TYPE, j + 1 + |style.before|, |style.letters|, 0)] else [];
      var k := j + 1 + |style.before| + |style.letters| + |style.after|;
      RestParses(g, k, rest, kind, nesting, after, doubles);
      RestOf(rest, k, nesting);
      if rest.NoStyle? {
        ArgumentAt(g, i, nesting, doubles, [name] + typed, kind, k);
        assert [name] + (typed + []) == [name] + typed;
      } else {
        var items := RestItems(rest, k, nesting);
        StyledArgumentAt(g, i, nesting, doubles, [name] + typed, kind, k + 1, G.Piece(items, k + |PrintRest(rest)|, doubles));
        Associate([name], typed, items);
      }
    }
  }

  lemma NoneIsZero()
    ensures TypeWithNumber(0) == G.NONE
  {
  }

  lemma RestOf(rest: Rest, i: nat, nesting: nat)
    ensures rest.NoStyle? ==> PrintRest(rest) == [] && RestItems(rest, i, nesting) == []
  {
  }

  /** The style of an argument, with the comma before it. */
  lemma {:induction false} RestParses(g: Grammar, i: nat, rest: Rest, kind: int, nesting: nat, after: Text, doubles: nat)
    requires SettingOf(g).Usual() && SettingOf(g).ValidRest(rest, kind, nesting)
    requires Here(g, i, PrintRest(rest) + [0x7d], after)
    ensures 1 <= kind <= 5
    ensures !rest.NoStyle? ==>
      i < |g.msg|
      && g.ArgStyle(TypeWithNumber(kind), i + 1, nesting, doubles)
         == G.Ok(G.Piece(RestItems(rest, i, nesting), i + |PrintRest(rest)|, doubles))
    decreases rest, 0
  {
    hide Here, Setting.Usual, PrintRest, RestItems, Setting.ValidRest, Grammar.ArgStyle;
    RestKind(g, rest, kind, nesting);
    if rest.SimpleStyle? {
      SimpleParses(g, i, rest.pieces, after, nesting, doubles);
    } else if rest.ChoiceStyle? {
      ChoiceStyleParses(g, i, rest.choices, nesting, after, doubles);
    } else if rest.KeyedStyle? {
      KeyedStyleParses(g, i, rest.offset, rest.cases, rest.last, kind, nesting, after, doubles);
    }
  }

  lemma {:induction false} ChoiceStyleParses(g: Grammar, i: nat, choices: seq<Choice>, nesting: nat, after: Text, doubles: nat)
    requires SettingOf(g).Usual() && choices != [] && nesting < 0x7fff && SettingOf(g).ValidChoices(choices, nesting)
    requires Here(g, i, PrintRest(ChoiceStyle(choices)) + [0x7d], after)
    ensures var rest := ChoiceStyle(choices);
      && i < |g.msg|
      && g.ArgStyle(G.CHOICE, i + 1, nesting, doubles) ==
           G.Ok(G.Piece(RestItems(rest, i, nesting), i + |PrintRest(rest)|, doubles))
    decreases choices, 1
  {
    hide Here, Setting.Usual, Setting.ValidChoices, RestItems, PrintChoices, Grammar.ArgStyle, Grammar.ChoiceStyle,
         Grammar.SkipWhiteSpace;
    RestSplit(g, i, PrintChoices(choices), after);
    ChoicesParse(g, i + 1, choices, nesting, [0x7d] + after, doubles);
    ChoiceRest(g, i, choices, nesting, doubles);
  }

  lemma {:induction false} KeyedStyleParses(g: Grammar, i: nat, offset: Offset, cases: seq<Case>, last: Text, kind: int,
                                            nesting: nat, after: Text, doubles: nat)
    requires SettingOf(g).Usual() && SettingOf(g).ValidKeyed(offset, cases, last, kind, nesting)
    requires Here(g, i, PrintRest(KeyedStyle(offset, cases, last)) + [0x7d], after)
    ensures var rest := KeyedStyle(offset, cases, last);
      && i < |g.msg| && kind in {3, 4, 5}
      && g.ArgStyle(TypeWithNumber(kind), i + 1, nesting, doubles) ==
           if HasOther(cases) then G.Ok(G.Piece(RestItems(rest, i, nesting), i + |PrintRest(rest)|, doubles))
           else G.Fail(G.DEFAULT_KEYWORD_MISSING)
    decreases cases, 3
  {
    hide Here, Setting.Usual, Setting.ValidKeyed, RestItems, PrintOffset, PrintCases, Grammar.ArgStyle, HasOther,
         Grammar.PluralOrSelectStyle, OffsetItems, CaseItems;
    KeyedKind(g, offset, cases, last, kind, nesting);
    var t := PrintCases(cases) + last;
    RestSplit(g, i, PrintOffset(offset) + t, after);
    HereSplit(g, i + 1, PrintOffset(offset), t, [0x7d] + after);
    KeyedParses(g, i + 1, offset, cases, last, kind, nesting, [0x7d] + after, doubles);
    KeyedRest(g, i, offset, cases, last, kind, nesting, doubles);
  }

  lemma RestKind(g: Grammar, rest: Rest, kind: int, nesting: nat)
    requires SettingOf(g).ValidRest(rest, kind, nesting)
    ensures 1 <= kind <= 5
    ensures rest.NoStyle? ==> kind == 1
    ensures rest.SimpleStyle? ==>
      && kind == 1 && SettingOf(g).ValidPieces(rest.pieces) && |PrintPieces(rest.pieces)| <= 0xffff
      && PrintRest(rest) == [0x2c] + PrintPieces(rest.pieces)
      && forall i: nat :: RestItems(rest, i, nesting) == [Leaf(ARG_STYLE, i + 1, |PrintPieces(rest.pieces)|, 0)]
    ensures rest.ChoiceStyle? ==>
      kind == 2 && rest.choices != [] && nesting < 0x7fff && SettingOf(g).ValidChoices(rest.choices, nesting)
    ensures rest.KeyedStyle? ==>
      SettingOf(g).ValidKeyed(rest.offset, rest.cases, rest.last, kind, nesting) && HasOther(rest.cases)
  {
    hide PrintPieces, PrintChoices, PrintCases, PrintOffset, Setting.ValidPieces, Setting.ValidChoices, HasOther;
  }

  lemma ChoiceRest(g: Grammar, i: nat, choices: seq<Choice>, nesting: nat, doubles: nat)
    requires i + 1 <= |g.msg| && g.SkipWhiteSpace(i + 1) < |g.msg| && g.msg[g.SkipWhiteSpace(i + 1)] != 0x7d
    requires g.ChoiceStyle(g.SkipWhiteSpace(i + 1), nesting, doubles) ==
      G.Ok(G.Piece(ChoiceItems(choices, i + 1, nesting), i + 1 + |PrintChoices(choices)|, doubles))
    ensures var rest := ChoiceStyle(choices);
      g.ArgStyle(G.CHOICE, i + 1, nesting, doubles) ==
        G.Ok(G.Piece(RestItems(rest, i, nesting), i + |PrintRest(rest)|, doubles))
  {
    hide ChoiceItems, PrintChoices, Grammar.SkipWhiteSpace, Grammar.ChoiceStyle;
  }

  lemma KeyedRest(g: Grammar, i: nat, offset: Offset, cases: seq<Case>, last: Text, kind: int, nesting: nat, doubles: nat)
    requires i + 1 <= |g.msg| && kind in {3, 4, 5}
    ensures var style := g.PluralOrSelectStyle(TypeWithNumber(kind), i + 1, nesting, true, false, doubles);
      var rest := KeyedStyle(offset, cases, last);
      && g.ArgStyle(TypeWithNumber(kind), i + 1, nesting, doubles) == style
      && OffsetItems(offset, i + 1) + CaseItems(cases, i + 1 + |PrintOffset(offset)|, nesting) == RestItems(rest, i, nesting)
      && i + 1 + |PrintOffset(offset)| + |PrintCases(cases)| + |last| == i + |PrintRest(rest)|
  {
    hide OffsetItems, CaseItems, PrintOffset, PrintCases, Grammar.PluralOrSelectStyle;
  }

  lemma RestSplit(g: Grammar, i: nat, t: Text, after: Text)
    requires Here(g, i, ([0x2c] + t) + [0x7d], after)
    ensures i < |g.msg| && Here(g, i + 1, t, [0x7d] + after)
  {
    hide Here;
    assert ([0x2c] + t) + [0x7d] == [0x2c] + (t + [0x7d]);
    HereAt(g, i, [0x2c] + (t + [0x7d]), after, 0);
    HereSplit(g, i, [0x2c], t + [0x7d], after);
    HereSplit(g, i + 1, t, [0x7d], after);
  }

  lemma SimpleParses(g: Grammar, i: nat, pieces: seq<StylePiece>, after: Text, nesting: nat, doubles: nat)
    requires SettingOf(g).ValidPieces(pieces) && |PrintPieces(pieces)| <= 0xffff
    requires Here(g, i, ([0x2c] + PrintPieces(pieces)) + [0x7d], after)
    ensures i < |g.msg| && g.ArgStyle(G.SIMPLE, i + 1, nesting, doubles) ==
      G.Ok(G.Piece([Leaf(ARG_STYLE, i + 1, |PrintPieces(pieces)|, 0)], i + 1 + |PrintPieces(pieces)|, doubles))
  {
    hide Here, Grammar.SimpleStyle, PrintPieces;
    var t := PrintPieces(pieces);
    RestSplit(g, i, t, after);
    PiecesParse(g, i + 1, i + 1, 0, pieces, [0x7d] + after);
    HereSlice(g, i + 1, t, [0x7d] + after);
    G.SimpleStep(g, i + 1 + |t|, i + 1, 0);
  }

  /** The choices, up to the closing brace. */
  lemma {:induction false} ChoicesParse(g: Grammar, i: nat, choices: seq<Choice>, nesting: nat, after: Text, doubles: nat)
    requires SettingOf(g).Usual() && choices != [] && nesting < 0x7fff && SettingOf(g).ValidChoices(choices, nesting)
    requires Here(g, i, PrintChoices(choices), after) && after != [] && after[0] == 0x7d
    ensures i <= |g.msg| && g.SkipWhiteSpace(i) < |g.msg| && g.msg[g.SkipWhiteSpace(i)] != 0x7d
    ensures g.ChoiceStyle(g.SkipWhiteSpace(i), nesting, doubles) ==
      G.Ok(G.Piece(ChoiceItems(choices, i, nesting), i + |PrintChoices(choices)|, doubles))
    decreases choices, 0
  {
    hide Here, Setting.Usual, Setting.ValidChoice, Setting.ValidChoices, PrintChoice, PrintChoices, OneChoice, ChoiceItems,
         Grammar.ChoiceStyle, Grammar.SkipWhiteSpace;
    var c := choices[0];
    var t := PrintChoice(c);
    ChoicesFirst(g, choices, i, nesting);
    if |choices| == 1 {
      OneChoiceParses(g, i, c, nesting, after, [0x7d], doubles);
    } else {
      var rest := PrintChoices(choices[1..]);
      var more := BarSplit(g, i, t, rest, after);
      OneChoiceParses(g, i, c, nesting, more, [0x7c], doubles);
      ChoicesParse(g, i + |t| + 1, choices[1..], nesting, after, doubles);
    }
  }

  /** What comes from a vertical bar on. */
  lemma BarSplit(g: Grammar, i: nat, t: Text, rest: Text, after: Text) returns (more: Text)
    requires Here(g, i, t + ([0x7c] + rest), after)
    ensures more != [] && more[0] == 0x7c && Here(g, i, t, more) && Here(g, i + |t| + 1, rest, after)
    ensures |t + ([0x7c] + rest)| == |t| + 1 + |rest|
  {
    hide Here;
    more := ([0x7c] + rest) + after;
    HereSplit(g, i, t, [0x7c] + rest, after);
    HereSplit(g, i + |t|, [0x7c], rest, after);
  }

  lemma ChoicesFirst(g: Grammar, choices: seq<Choice>, i: nat, nesting: nat)
    requires choices != [] && SettingOf(g).ValidChoices(choices, nesting)
    ensures var c, rest := choices[0], choices[1..]; var t := PrintChoice(c);
      if |choices| == 1 then
        && PrintChoices(choices) == t && ChoiceItems(choices, i, nesting) == OneChoice(c, i, nesting, 0)
        && SettingOf(g).ValidChoice(c, nesting, [0x7d])
      else
        && PrintChoices(choices) == t + ([0x7c] + PrintChoices(rest))
        && ChoiceItems(choices, i, nesting) == OneChoice(c, i, nesting, 1) + ChoiceItems(rest, i + |t| + 1, nesting)
        && SettingOf(g).ValidChoice(c, nesting, [0x7c]) && SettingOf(g).ValidChoices(rest, nesting)
  {
    hide PrintChoice, OneChoice, Setting.ValidChoice;
    if |choices| == 1 {
      assert OneChoice(choices[0], i, nesting, 0) + [] == OneChoice(choices[0], i, nesting, 0);
    }
  }

  /** One choice, up to a vertical bar or the closing brace. */
  lemma {:induction false} OneChoiceParses(g: Grammar, i: nat, c: Choice, nesting: nat, after: Text, end: Text, doubles: nat)
    requires SettingOf(g).Usual() && nesting < 0x7fff && (end == [0x7c] || end == [0x7d])
    requires SettingOf(g).ValidChoice(c, nesting, end) && after != [] && after[0] == end[0]
    requires Here(g, i, PrintChoice(c), after)
    ensures var e := i + |PrintChoice(c)|;
      && e < |g.msg| && g.SkipWhiteSpace(i) < |g.msg| && g.msg[g.SkipWhiteSpace(i)] != 0x7d
      && g.ChoiceStyle(g.SkipWhiteSpace(i), nesting, doubles) ==
           if after[0] == 0x7d then G.Ok(G.Piece(OneChoice(c, i, nesting, 0), e, doubles))
           else G.PrefixedPiece(OneChoice(c, i, nesting, 1), g.ChoiceStyle(g.SkipWhiteSpace(e + 1), nesting, doubles))
    decreases c, 1
  {
    hide Here, Setting.Usual, Setting.Space, Setting.Valid, Print, PrintChoice, Items, OneChoice, Numeral.Print, Numeral.Valid,
         Numeral.Value, Grammar.ChoiceStyle, Grammar.ChoiceHead, Grammar.Message, Grammar.MessageBody, Grammar.SkipWhiteSpace;
    var l, body := |c.number.Print()|, Print(c.message);
    var j := i + |c.before|;
    var k := j + l + |c.after|;
    ChoiceSplit(g, i, c, nesting, after, end);
    ChoiceHeadParses(g, i, c, body + after, doubles);
    ValidBefore(g, c.message, 2, nesting + 1, end, after);
    BodyParses(g, k + 1, c.message, 2, nesting + 1, after, doubles);
    var items := Items(c.message, k + 1, nesting + 1);
    var b := BodyOf(items, k + 1 + |body|, 2, after, doubles);
    MessageAt(g, k + 1, 0, nesting + 1, G.CHOICE, doubles, b);
    var first := [Leaf(ARG_INT, j, l, c.number.Value()), Leaf(ARG_SELECTOR, k, 1, 0)];
    var message := Group(true, k + 1, 0, nesting + 1, items, b.limitIndex, b.limitLength);
    ChoiceAt(g, j, nesting, doubles, G.Piece(first, k + 1, doubles), G.Piece([message], b.next, doubles));
    ChoiceOf(c, i, nesting, b.limitLength);
  }

  lemma ChoiceOf(c: Choice, i: nat, nesting: nat, limitLength: nat)
    ensures var l := |c.number.Print()|; var j := i + |c.before|; var k := j + l + |c.after|;
      && i + |PrintChoice(c)| == k + 1 + |Print(c.message)|
      && OneChoice(c, i, nesting, limitLength) ==
           [Leaf(ARG_INT, j, l, c.number.Value()), Leaf(ARG_SELECTOR, k, 1, 0)]
           + [Group(true, k + 1, 0, nesting + 1, Items(c.message, k + 1, nesting + 1), k + 1 + |Print(c.message)|, limitLength)]
  {
    hide Print, Items, Numeral.Print, Numeral.Value;
  }

  lemma ChoiceSplit(g: Grammar, i: nat, c: Choice, nesting: nat, after: Text, end: Text)
    requires SettingOf(g).ValidChoice(c, nesting, end) && after != [] && Here(g, i, PrintChoice(c), after)
    ensures SettingOf(g).Space(c.before) && SettingOf(g).Space(c.after) && c.number.Valid()
    ensures c.separator in {0x23, 0x3c, 0x2264} && SettingOf(g).Valid(c.message, 2, nesting + 1, end)
    ensures var k := i + |c.before| + |c.number.Print()| + |c.after|; var body := Print(c.message);
      && Here(g, i, c.before + (c.number.Print() + (c.after + [c.separator])), body + after)
      && Here(g, k + 1, body, after) && k + 1 + |body| < |g.msg| && g.msg[k + 1 + |body|] == after[0]
  {
    hide Here, Print, Numeral.Print, Numeral.Valid, Setting.Valid, Setting.Space;
    var head, body := c.before + (c.number.Print() + (c.after + [c.separator])), Print(c.message);
    assert PrintChoice(c) == head + body;
    HereSplit(g, i, head, body, after);
    HereSlice(g, i + |head|, body, after);
  }

  lemma KeyedKind(g: Grammar, offset: Offset, cases: seq<Case>, last: Text, kind: int, nesting: nat)
    requires SettingOf(g).ValidKeyed(offset, cases, last, kind, nesting)
    ensures kind in {3, 4, 5}
  {
  }

  /** The offset and the cases, up to the closing brace; without the selector other they are an error. */
  lemma {:induction false} KeyedParses(g: Grammar, i: nat, offset: Offset, cases: seq<Case>, last: Text, kind: int, nesting: nat,
                                       after: Text, doubles: nat)
    requires SettingOf(g).Usual() && SettingOf(g).ValidKeyed(offset, cases, last, kind, nesting)
    requires Here(g, i, PrintOffset(offset), (PrintCases(cases) + last) + after)
    requires Here(g, i + |PrintOffset(offset)|, PrintCases(cases) + last, after) && after != [] && after[0] == 0x7d
    ensures g.PluralOrSelectStyle(TypeWithNumber(kind), i, nesting, true, false, doubles) ==
      if HasOther(cases) then
        G.Ok(G.Piece(OffsetItems(offset, i) + CaseItems(cases, i + |PrintOffset(offset)|, nesting),
                     i + |PrintOffset(offset)| + |PrintCases(cases)| + |last|, doubles))
      else G.Fail(G.DEFAULT_KEYWORD_MISSING)
    decreases cases, 2
  {
    hide Here, Setting.Usual, Setting.Space, Setting.ValidCases, Setting.ValidOffset, PrintCases, CaseItems, OffsetItems,
         PrintOffset, HasOther, Grammar.PluralOrSelectStyle, Grammar.Selector, Grammar.SkipWhiteSpace, Grammar.IsSelector;
    var argType, t := TypeWithNumber(kind), PrintCases(cases) + last;
    var e := i + |PrintOffset(offset)|;
    NoOffsetIs(i);
    if offset.Offset? {
      FirstCase(cases, last, after);
      OffsetParses(g, i, offset, kind, t + after, doubles);
      OffsetStep(g, argType, i, i + |offset.before|, nesting, doubles, G.Piece(OffsetItems(offset, i), e, doubles));
      CasesParse(g, e, cases, last, kind, nesting, false, false, after, doubles);
    } else {
      CasesParse(g, e, cases, last, kind, nesting, true, false, after, doubles);
      assert [] + CaseItems(cases, i, nesting) == CaseItems(cases, i, nesting);
    }
  }

  lemma NoOffsetIs(i: nat)
    ensures PrintOffset(NoOffset) == [] && OffsetItems(NoOffset, i) == []
  {
  }

  lemma FirstCase(cases: seq<Case>, last: Text, after: Text)
    requires cases != []
    ensures var t := (PrintCases(cases) + last) + after; t != [] && t[0] == PrintCase(cases[0])[0]
  {
    hide PrintCase;
  }

  /** The cases, up to the closing brace; without the selector other they are an error. */
  lemma {:induction false} CasesParse(g: Grammar, i: nat, cases: seq<Case>, last: Text, kind: int, nesting: nat, isEmpty: bool,
                                      hasOther: bool, after: Text, doubles: nat)
    requires SettingOf(g).Usual() && kind in {3, 4, 5} && nesting < 0x7fff && SettingOf(g).Space(last)
    requires SettingOf(g).ValidCases(cases, kind, nesting)
    requires Here(g, i, PrintCases(cases) + last, after) && after != [] && after[0] == 0x7d
    ensures i <= |g.msg|
    ensures g.PluralOrSelectStyle(TypeWithNumber(kind), i, nesting, isEmpty, hasOther, doubles) ==
      if hasOther || HasOther(cases) then
        G.Ok(G.Piece(CaseItems(cases, i, nesting), i + |PrintCases(cases)| + |last|, doubles))
      else G.Fail(G.DEFAULT_KEYWORD_MISSING)
    decreases cases, 1
  {
    hide Here, Setting.Usual, Setting.Space, Setting.ValidCase, PrintCase, OneCase, HasOther, Grammar.PluralOrSelectStyle;
    HereSlice(g, i, PrintCases(cases) + last, after);
    var argType := TypeWithNumber(kind);
    if cases == [] {
      NoCases();
      assert PrintCases(cases) + last == last;
      KeyedEnd(g, argType, i, last, nesting, isEmpty, hasOther, doubles, after);
    } else {
      var c := cases[0];
      var t, rest := PrintCase(c), PrintCases(cases[1..]);
      Associate(t, rest, last);
      HereSplit(g, i, t, rest + last, after);
      CaseParses(g, i, c, kind, nesting, isEmpty, hasOther, (rest + last) + after, doubles);
      OtherIn(cases);
      CasesParse(g, i + |t|, cases[1..], last, kind, nesting, false, hasOther || c.key == Keyword(OTHER), after, doubles);
    }
  }

  lemma NoCases()
    ensures !HasOther([])
  {
  }

  lemma OtherIn(cases: seq<Case>)
    requires cases != []
    ensures HasOther(cases) <==> cases[0].key == Keyword(OTHER) || HasOther(cases[1..])
  {
    if k :| 0 <= k < |cases| && cases[k].key == Keyword(OTHER) && k > 0 {
      assert cases[1..][k - 1].key == Keyword(OTHER);
    }
    if k :| 0 <= k < |cases[1..]| && cases[1..][k].key == Keyword(OTHER) {
      assert cases[k + 1].key == Keyword(OTHER);
    }
  }

  /** One selector and its message. */
  lemma {:induction false} CaseParses(g: Grammar, i: nat, c: Case, kind: int, nesting: nat, isEmpty: bool, hasOther: bool,
                                      after: Text, doubles: nat)
    requires SettingOf(g).Usual() && kind in {3, 4, 5} && nesting < 0x7fff && SettingOf(g).ValidCase(c, kind, nesting)
    requires Here(g, i, PrintCase(c), after)
    ensures var argType, e := TypeWithNumber(kind), i + |PrintCase(c)|;
      && e <= |g.msg|
      && g.PluralOrSelectStyle(argType, i, nesting, isEmpty, hasOther, doubles) ==
           G.PrefixedPiece(OneCase(c, i, nesting),
             g.PluralOrSelectStyle(argType, e, nesting, false, hasOther || c.key == Keyword(OTHER), doubles))
    decreases c, 1
  {
    hide Here, Setting.Usual, Setting.Space, Setting.Valid, Print, PrintKey, PrintCase, KeyItems, Items, OneCase, ValidKey,
         Grammar.PluralOrSelectStyle, Grammar.Selector, Grammar.Message, Grammar.MessageBody, Grammar.SkipWhiteSpace,
         Grammar.IsSelector, Grammar.IsOther;
    var argType := TypeWithNumber(kind);
    var key, body := PrintKey(c.key), Print(c.message);
    var j := i + |c.before|;
    var k := j + |key| + |c.after|;
    var rest := [0x7d] + after;
    CaseSplit(g, i, c, kind, nesting, after);
    CaseHeadParses(g, i, c, kind, ([0x7b] + (body + [0x7d])) + after, isEmpty, doubles);
    ValidBefore(g, c.message, kind, nesting + 1, [0x7d], rest);
    BodyParses(g, k + 1, c.message, kind, nesting + 1, rest, doubles);
    var items := Items(c.message, k + 1, nesting + 1);
    MessageAt(g, k, 1, nesting + 1, argType, doubles, BodyOf(items, k + 1 + |body|, kind, rest, doubles));
    var message := Group(true, k, 1, nesting + 1, items, k + 1 + |body|, 1);
    KeyedAt(g, argType, i, j, k, nesting, isEmpty, hasOther, doubles,
            G.Piece(KeyItems(c.key, j), j + |key|, doubles), G.Piece([message], k + 2 + |body|, doubles));
    CaseOf(c, i, nesting);
  }

  lemma CaseOf(c: Case, i: nat, nesting: nat)
    ensures var j := i + |c.before|; var k := j + |PrintKey(c.key)| + |c.after|;
      && i + |PrintCase(c)| == k + 2 + |Print(c.message)|
      && OneCase(c, i, nesting) == KeyItems(c.key, j)
           + [Group(true, k, 1, nesting + 1, Items(c.message, k + 1, nesting + 1), k + 1 + |Print(c.message)|, 1)]
  {
    hide Print, PrintKey, KeyItems, Items;
  }

  lemma CaseSplit(g: Grammar, i: nat, c: Case, kind: int, nesting: nat, after: Text)
    requires SettingOf(g).ValidCase(c, kind, nesting) && Here(g, i, PrintCase(c), after)
    ensures SettingOf(g).Space(c.before) && SettingOf(g).Space(c.after) && ValidKey(g, c.key, kind)
    ensures SettingOf(g).Valid(c.message, kind, nesting + 1, [0x7d])
    ensures var k := i + |c.before| + |PrintKey(c.key)| + |c.after|; var body := Print(c.message);
      && Here(g, i, c.before + (PrintKey(c.key) + c.after), ([0x7b] + (body + [0x7d])) + after)
      && Here(g, k + 1, body, [0x7d] + after) && k + 2 + |body| <= |g.msg|
  {
    hide Here, Print, PrintKey, Setting.Valid, Setting.Space;
    var head, body := c.before + (PrintKey(c.key) + c.after), Print(c.message);
    var tail := [0x7b] + (body + [0x7d]);
    assert PrintCase(c) == head + tail;
    HereSlice(g, i, PrintCase(c), after);
    HereSplit(g, i, head, tail, after);
    HereSplit(g, i + |head|, [0x7b], body + [0x7d], after);
    HereSplit(g, i + |head| + 1, body, [0x7d], after);
  }

  // Patterns.

  /** For every valid tree, the printed pattern has exactly the items of the tree. */
  lemma PatternParses(g: Grammar, nodes: seq<Node>)
    requires SettingOf(g).Usual() && SettingOf(g).Valid(nodes, 0, 0, []) && g.msg == Print(nodes)
    ensures g.Pattern() == G.Ok(G.Piece(PatternItems(nodes), |g.msg|, 0))
  {
    hide Setting.Usual, Setting.Valid, Print, Items, Grammar.MessageBody, Grammar.Message;
    assert g.msg[0..] == g.msg + [];
    BodyParses(g, 0, nodes, 0, 0, [], 0);
    MessageAt(g, 0, 0, 0, G.NONE, 0, BodyOf(Items(nodes, 0, 0), |g.msg|, 0, [], 0));
  }
}
