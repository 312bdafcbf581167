/** Text, argument names and argument types which have been printed. */
module MessageHeads {
  import opened Basics
  import opened Utf16
  import opened MessageParts
  import G = MessageGrammar
  import opened MessageSyntax
  import opened MessageSkips
  import opened MessageNumbers

  /** Nodes without an argument are text, which does not end the message. */
  lemma TextParses(g: Grammar, i: nat, n: Node, kind: int, nesting: nat, after: Text)
    requires SettingOf(g).ValidNode(n, kind, nesting, after) && !n.Argument? && Here(g, i, PrintNode(n), after)
    requires 0 <= kind <= 5 && (kind == 0 <==> nesting == 0)
    ensures i < |g.msg| && g.msg[i] != 0x7b && !g.EndsMessage(i, nesting, TypeWithNumber(kind))
    ensures g.Text(i, TypeWithNumber(kind)) == (NodeItems(n, i, nesting), i + |PrintNode(n)|)
  {
    hide Here, Grammar.Quoted, Grammar.Text, Grammar.EndsMessage, PrintTexts, PairItems, Setting.QuotedTexts, Setting.Starts;
    match n
    case Quoted(texts) =>
      QuoteParses(g, i, texts, true, kind, after);
      TextAt(g, i, kind, nesting);
    case Unclosed(texts) =>
      assert PrintTexts(texts) + Close(false) == PrintTexts(texts);
      QuoteParses(g, i, texts, false, kind, after);
      TextAt(g, i, kind, nesting);
    case _ => UnitParses(g, i, n, kind, nesting, after);
  }

  lemma UnitParses(g: Grammar, i: nat, n: Node, kind: int, nesting: nat, after: Text)
    requires SettingOf(g).ValidNode(n, kind, nesting, after) && (n.Char? || n.Doubled? || n.Literal? || n.NumberSign?)
    requires Here(g, i, PrintNode(n), after)
    requires 0 <= kind <= 5 && (kind == 0 <==> nesting == 0)
    ensures i < |g.msg| && g.msg[i] != 0x7b && !g.EndsMessage(i, nesting, TypeWithNumber(kind))
    ensures g.Text(i, TypeWithNumber(kind)) == (NodeItems(n, i, nesting), i + |PrintNode(n)|)
  {
    hide Here, Grammar.Quoted, Grammar.Text, Grammar.EndsMessage, Setting.Starts;
    var t := PrintNode(n);
    HereAt(g, i, t, after, 0);
    TextAt(g, i, kind, nesting);
    if n.Doubled? {
      HereAt(g, i, t, after, 1);
    } else if n.Literal? {
      HereSlice(g, i, t, after);
    }
  }

  /** What a unit of text is. */
  lemma TextAt(g: Grammar, i: nat, kind: int, nesting: nat)
    requires i < |g.msg| && 0 <= kind <= 5 && (kind == 0 <==> nesting == 0)
    ensures var c, parent := g.msg[i], TypeWithNumber(kind);
      && (g.EndsMessage(i, nesting, parent) <==> (kind != 0 && c == 0x7d) || (kind == 2 && c == 0x7c))
      && g.Text(i, parent) ==
           if c != 0x27 then (if c == 0x23 && (kind == 3 || kind == 5) then [Leaf(REPLACE_NUMBER, i, 1, 0)] else [], i + 1)
           else if i + 1 < |g.msg| && g.msg[i + 1] == 0x27 then ([Leaf(SKIP_SYNTAX, i + 1, 1, 0)], i + 2)
           else if i + 1 < |g.msg| && SettingOf(g).Starts(g.msg[i + 1], kind) then
             ([Leaf(SKIP_SYNTAX, i, 1, 0)] + g.Quoted(i + 2).0, g.Quoted(i + 2).1)
           else ([Leaf(INSERT_CHAR, i + 1, 0, 0x27)], i + 1)
  {
    hide Grammar.Quoted;
  }

  lemma QuoteParses(g: Grammar, i: nat, texts: seq<Text>, closed: bool, kind: int, after: Text)
    requires SettingOf(g).QuotedTexts(texts, kind) && 0 <= kind <= 5
    requires Here(g, i, [0x27] + (PrintTexts(texts) + Close(closed)), after)
    requires after == [] || (closed && after[0] != 0x27)
    ensures var e := i + 1 + |PrintTexts(texts)|;
      && i + 1 < |g.msg| && g.msg[i] == 0x27 && g.msg[i + 1] != 0x27 && SettingOf(g).Starts(g.msg[i + 1], kind)
      && g.Quoted(i + 2) == (PairItems(texts, i + 1) + [QuoteEnd(closed, e)], e + |Close(closed)|)
  {
    hide Here, Grammar.Quoted;
    var t := PrintTexts(texts) + Close(closed);
    HereSplit(g, i, [0x27], t, after);
    HereAt(g, i, [0x27], t + after, 0);
    HereAt(g, i + 1, t, after, 0);
    FirstText(texts, Close(closed));
    QuotedTextParses(g, i + 1, texts, closed, after);
    QuotedNext(g, i + 1);
  }

  /** A unit of quoted text which is no apostrophe. */
  lemma QuotedNext(g: Grammar, i: nat)
    requires i < |g.msg| && g.msg[i] != 0x27
    ensures g.Quoted(i) == g.Quoted(i + 1)
  {
    hide Grammar.Quoted;
    G.QuotedIs(g, i);
    G.QuotedIs(g, i + 1);
  }

  lemma FirstText(texts: seq<Text>, close: Text)
    requires texts != [] && texts[0] != []
    ensures var t := PrintTexts(texts) + close;
      t != [] && t[0] == texts[0][0]
  {
  }

  // Names and types.

  lemma UsualUnits(g: Grammar, c: Unit)
    requires SettingOf(g).Usual()
    ensures c in {0x7b, 0x7d, 0x2c, 0x3a, 0x3d, 0x23, 0x3c, 0x7c} ==> c in g.syntaxOrWhiteSpace
    ensures c in {0x7b, 0x7d, 0x2c, 0x3a, 0x3d, 0x23, 0x3c, 0x7c, 0x2264} ==> c !in g.whiteSpace && !IsNumberUnit(c) && !IsLetter(c)
    ensures c in g.whiteSpace ==> c in g.syntaxOrWhiteSpace && !IsNumberUnit(c) && !IsLetter(c)
    ensures c !in g.syntaxOrWhiteSpace ==> c !in g.whiteSpace
    ensures IsLetter(c) || IsNumberUnit(c) ==> c !in g.whiteSpace
  {
  }

  /**
   A name, or a number: up to 7fff and without leading zeros. Larger numbers up to 7fffffff are out of bounds; with
   leading zeros, or larger still, they are no number and no name.
   */
  lemma NameRule(g: Grammar, i: nat, t: Text, after: Text)
    requires Here(g, i, t, after) && (forall k :: 0 <= k < |t| ==> t[k] !in g.syntaxOrWhiteSpace)
    requires after == [] || after[0] in g.syntaxOrWhiteSpace
    ensures i + |t| <= |g.msg|
    ensures g.ArgName(i) ==
      if t == [] then G.Fail(G.PATTERN_SYNTAX)
      else if !AreDigits(t) then
        if |t| > 0xffff then G.Fail(G.INDEX_OUTOFBOUNDS) else G.Ok(G.Piece([Leaf(ARG_NAME, i, |t|, 0)], i + |t|, 0))
      else if (t[0] == 0x30 && |t| > 1) || Decimal(t[..|t| - 1]) >= 214748364 then G.Fail(G.PATTERN_SYNTAX)
      else if Decimal(t) > 0x7fff then G.Fail(G.INDEX_OUTOFBOUNDS)
      else G.Ok(G.Piece([Leaf(ARG_NUMBER, i, |t|, Decimal(t))], i + |t|, 0))
  {
    hide Here, Grammar.SkipIdentifier, G.ArgNumber, Decimal;
    HereSlice(g, i, t, after);
    SkipWord(g, i, t, after);
    ArgNumberRule(t);
    if t != [] && AreDigits(t) {
      DecimalGrows(t, 0);
      if Decimal(t) <= 0x7fff && (t[0] == 0x30 ==> |t| == 1) {
        ShortNumber(t);
      }
    }
  }

  /** A name or a number, up to what is no part of it. */
  lemma NameParses(g: Grammar, i: nat, name: Name, after: Text)
    requires SettingOf(g).Usual() && SettingOf(g).ValidName(name) && Here(g, i, PrintName(name), after)
    requires after == [] || after[0] in g.syntaxOrWhiteSpace
    ensures i + |PrintName(name)| <= |g.msg|
    ensures g.ArgName(i) == G.Ok(G.Piece([NameItem(name, i)], i + |PrintName(name)|, 0))
  {
    hide Here, Setting.Usual, Decimal, Grammar.ArgName;
    var t := PrintName(name);
    if name.Index? {
      DecimalGrows(t, |t| - 1);
      forall k | 0 <= k < |t|
        ensures t[k] !in g.syntaxOrWhiteSpace
      {
        DigitUnit(g, t[k]);
      }
    }
    NameRule(g, i, t, after);
  }

  lemma DigitUnit(g: Grammar, c: Unit)
    requires SettingOf(g).Usual() && 0x30 <= c <= 0x39
    ensures c !in g.syntaxOrWhiteSpace
  {
  }

  /** A number up to 7fff without leading zeros has at most 5 digits. */
  lemma ShortNumber(t: Text)
    requires t != [] && AreDigits(t) && (t[0] == 0x30 ==> |t| == 1) && Decimal(t) <= 0x7fff
    ensures |t| <= 5
  {
    if |t| > 5 {
      DecimalGrows(t, 6);
      AtLeast(t, 6);
    }
  }

  lemma AtLeast(t: Text, k: nat)
    requires AreDigits(t) && 6 <= |t| && k == 6 && t[0] != 0x30
    ensures Decimal(t[..6]) >= 100000
  {
    DecimalNext(t, 0);
    DecimalNext(t, 1);
    DecimalNext(t, 2);
    DecimalNext(t, 3);
    DecimalNext(t, 4);
    DecimalNext(t, 5);
  }

  /** Where white space ends. */
  lemma SpaceThen(g: Grammar, i: nat, space: Text, t: Text, after: Text)
    requires SettingOf(g).Space(space) && Here(g, i, space + t, after)
    requires t + after != [] && (t + after)[0] !in g.whiteSpace
    ensures g.SkipWhiteSpace(i) == i + |space| < |g.msg| && g.msg[i + |space|] == (t + after)[0]
    ensures Here(g, i + |space|, t, after)
  {
    HereSplit(g, i, space, t, after);
    SkipSpace(g, i, space, t + after);
    HereSlice(g, i, space, t + after);
  }

  /** The head of an argument, from where its parts end. */
  lemma ArgHeadAt(g: Grammar, i: nat, j: nat, k: nat, e: nat, item: Item)
    requires i <= j <= k <= e < |g.msg| && g.SkipWhiteSpace(i) == j && g.ArgName(j) == G.Ok(G.Piece([item], k, 0))
    requires g.SkipWhiteSpace(k) == e && (g.msg[e] == 0x7d || g.msg[e] == 0x2c)
    ensures g.ArgHead(i) ==
      if g.msg[e] == 0x7d then G.Ok(G.Head([item], G.NONE, false, e)) else g.ArgTypeName([item], e + 1)
  {
    hide Grammar.SkipWhiteSpace, Grammar.ArgName, Grammar.ArgTypeName;
  }

  lemma ArgTypeNameAt(g: Grammar, items: seq<Item>, i: nat, j: nat, k: nat, e: nat)
    requires i <= j < k <= e < |g.msg| && g.SkipWhiteSpace(i) == j && g.SkipArgType(j) == k && k - j <= 0xffff
    requires g.SkipWhiteSpace(k) == e && (g.msg[e] == 0x7d || g.msg[e] == 0x2c)
    ensures var kind := TypeNumber(g.msg[j..k]);
      g.ArgTypeName(items, i) ==
        if g.msg[e] == 0x7d && kind != 1 then G.Fail(G.PATTERN_SYNTAX)
        else G.Ok(G.Head(items + (if kind == 1 then [Leaf(ARG_TYPE, j, k - j, 0)] else []),
                         TypeWithNumber(kind), g.msg[e] == 0x2c, if g.msg[e] == 0x2c then e + 1 else e))
  {
    hide Grammar.SkipWhiteSpace, Grammar.SkipArgType, G.TypeOf, TypeNumber;
    TypeRule(g.msg[j..k]);
    assert items + [] == items;
  }

  /** The head of an argument without a type. */
  lemma UntypedHead(g: Grammar, i: nat, space: Text, name: Name, gap: Text, after: Text)
    requires SettingOf(g).Usual() && SettingOf(g).Space(space) && SettingOf(g).ValidName(name) && SettingOf(g).Space(gap)
    requires Here(g, i, space + (PrintName(name) + gap), after) && after != [] && (after[0] == 0x7d || after[0] == 0x2c)
    ensures var j := i + |space|; var e := j + |PrintName(name)| + |gap|;
      && e < |g.msg| && g.msg[e] == after[0] && Here(g, e, [], after)
      && g.ArgHead(i) ==
           if after[0] == 0x7d then G.Ok(G.Head([NameItem(name, j)], G.NONE, false, e))
           else g.ArgTypeName([NameItem(name, j)], e + 1)
  {
    hide Here, Grammar.SkipWhiteSpace, Grammar.ArgName, Grammar.ArgTypeName, Grammar.ArgHead, Setting.Usual,
         Setting.ValidName, Setting.Space, PrintName, NameItem;
    var t := PrintName(name);
    var j := i + |space|;
    AfterSpace(g, gap, after);
    FirstOfName(g, name);
    SpaceThen(g, i, space, t + gap, after);
    HereSplit(g, j, t, gap, after);
    NameParses(g, j, name, gap + after);
    SpaceEnds(g, j + |t|, gap, after);
    ArgHeadAt(g, i, j, j + |t|, j + |t| + |gap|, NameItem(name, j));
  }

  lemma SpaceEnds(g: Grammar, i: nat, gap: Text, after: Text)
    requires SettingOf(g).Space(gap) && Here(g, i, gap, after) && after != [] && after[0] !in g.whiteSpace
    ensures g.SkipWhiteSpace(i) == i + |gap| < |g.msg| && g.msg[i + |gap|] == after[0] && Here(g, i + |gap|, [], after)
  {
    hide Here;
    assert gap + [] == gap && [] + after == after;
    SpaceThen(g, i, gap, [], after);
  }

  /** White space and the syntax after it end a name. */
  lemma AfterSpace(g: Grammar, gap: Text, after: Text)
    requires SettingOf(g).Usual() && SettingOf(g).Space(gap) && after != []
    requires after[0] in {0x7b, 0x7d, 0x2c, 0x3a, 0x3d, 0x23, 0x3c, 0x7c, 0x2264}
    ensures (gap + after)[0] in g.syntaxOrWhiteSpace || (gap == [] && after[0] == 0x2264)
    ensures after[0] !in g.whiteSpace && !IsNumberUnit((gap + after)[0]) && !IsLetter((gap + after)[0])
  {
    hide Setting.Usual;
    UsualUnits(g, (gap + after)[0]);
    UsualUnits(g, after[0]);
  }

  lemma FirstOfName(g: Grammar, name: Name)
    requires SettingOf(g).Usual() && SettingOf(g).ValidName(name)
    ensures PrintName(name) != [] && PrintName(name)[0] !in g.whiteSpace
  {
  }

  /** The type of an argument, up to a comma or the closing brace; only a simple type can be without a style. */
  lemma TypeParses(g: Grammar, items: seq<Item>, i: nat, before: Text, letters: Text, gap: Text, after: Text)
    requires SettingOf(g).Usual() && SettingOf(g).Space(before) && SettingOf(g).Space(gap) && 0 < |letters| <= 0xffff
    requires forall k :: 0 <= k < |letters| ==> IsLetter(letters[k])
    requires Here(g, i, before + (letters + gap), after) && after != [] && (after[0] == 0x7d || after[0] == 0x2c)
    ensures var j := i + |before|; var e := j + |letters| + |gap|; var kind := TypeNumber(letters);
      && e < |g.msg| && g.msg[e] == after[0] && Here(g, e, [], after)
      && g.ArgTypeName(items, i) ==
           if after[0] == 0x7d && kind != 1 then G.Fail(G.PATTERN_SYNTAX)
           else G.Ok(G.Head(items + (if kind == 1 then [Leaf(ARG_TYPE, j, |letters|, 0)] else []),
                            TypeWithNumber(kind), after[0] == 0x2c, if after[0] == 0x2c then e + 1 else e))
  {
    hide Here, Grammar.SkipWhiteSpace, Grammar.SkipArgType, Grammar.ArgTypeName, G.TypeOf, TypeNumber, Setting.Usual,
         Setting.Space;
    var j := i + |before|;
    UsualUnits(g, letters[0]);
    AfterSpace(g, gap, after);
    SpaceThen(g, i, before, letters + gap, after);
    HereSplit(g, j, letters, gap, after);
    SkipLetters(g, j, letters, gap + after);
    HereSlice(g, j, letters, gap + after);
    SpaceEnds(g, j + |letters|, gap, after);
    ArgTypeNameAt(g, items, i, j, j + |letters|, j + |letters| + |gap|);
  }

  /** The name and the type of an argument are valid. */
  ghost predicate ValidHead(g: Grammar, n: Node) {
    && n.Argument? && SettingOf(g).Space(n.space) && SettingOf(g).ValidName(n.name) && SettingOf(g).Space(n.after)
    && SettingOf(g).ValidType(n.style)
  }

  /** The name, and the type if there is one; only a simple type can be without a style. */
  lemma HeadParses(g: Grammar, i: nat, n: Node, after: Text)
    requires SettingOf(g).Usual() && ValidHead(g, n)
    requires Here(g, i, PrintNode(n), after)
    ensures var j := i + 1 + |n.space| + |PrintName(n.name)| + |n.after|;
      && i < |g.msg| && g.msg[i] == 0x7b && i + |PrintNode(n)| <= |g.msg|
      && if n.style.NoType? then
           g.ArgHead(i + 1) == G.Ok(G.Head([NameItem(n.name, i + 1 + |n.space|)], G.NONE, false, j))
         else
           var style := n.style; var kind := TypeNumber(style.letters);
           var k := j + 1 + |style.before| + |style.letters| + |style.after|;
           && g.ArgHead(i + 1) ==
                (if style.rest.NoStyle? && kind != 1 then G.Fail(G.PATTERN_SYNTAX)
                 else G.Ok(G.Head([NameItem(n.name, i + 1 + |n.space|)]
                        + (if kind == 1 then [Leaf(ARG_TYPE, j + 1 + |style.before|, |style.letters|, 0)] else []),
                        TypeWithNumber(kind), !style.rest.NoStyle?, if style.rest.NoStyle? then k else k + 1)))
           && Here(g, k, PrintRest(style.rest) + [0x7d], after)
  {
    hide Here, PrintRest, Grammar.ArgHead, Grammar.ArgTypeName, Setting.Usual, TypeNumber;
    var space, name, gap, style := n.space, n.name, n.after, n.style;
    var head, tail := space + (PrintName(name) + gap), PrintStyle(style) + [0x7d];
    var inner := space + (PrintName(name) + (gap + tail));
    assert inner == head + tail;
    HereSlice(g, i, [0x7b] + inner, after);
    HereAt(g, i, [0x7b] + inner, after, 0);
    HereSplit(g, i, [0x7b], inner, after);
    HereSplit(g, i + 1, head, tail, after);
    StyleFirst(style);
    UntypedHead(g, i + 1, space, name, gap, tail + after);
    var j := i + 1 + |head|;
    if style.Typed? {
      TypedHead(g, j, [NameItem(name, i + 1 + |space|)], style, after);
    }
  }

  lemma StyleFirst(style: Style)
    ensures var t := PrintStyle(style) + [0x7d]; t != [] && t[0] == if style.NoType? then 0x7d else 0x2c
  {
    hide PrintRest;
  }

  lemma RestFirst(rest: Rest)
    ensures var t := PrintRest(rest) + [0x7d]; t != [] && t[0] == if rest.NoStyle? then 0x7d else 0x2c
  {
    hide PrintPieces, PrintChoices, PrintCases;
  }

  lemma TypedHead(g: Grammar, j: nat, items: seq<Item>, style: Style, after: Text)
    requires SettingOf(g).Usual() && style.Typed? && SettingOf(g).ValidType(style)
    requires Here(g, j, PrintStyle(style) + [0x7d], after)
    ensures var kind := TypeNumber(style.letters); var k := j + 1 + |style.before| + |style.letters| + |style.after|;
      && k < |g.msg| && Here(g, k, PrintRest(style.rest) + [0x7d], after)
      && g.ArgTypeName(items, j + 1) ==
           (if style.rest.NoStyle? && kind != 1 then G.Fail(G.PATTERN_SYNTAX)
            else G.Ok(G.Head(items + (if kind == 1 then [Leaf(ARG_TYPE, j + 1 + |style.before|, |style.letters|, 0)] else []),
                             TypeWithNumber(kind), !style.rest.NoStyle?, if style.rest.NoStyle? then k else k + 1)))
  {
    hide Here, PrintRest, Grammar.ArgTypeName, Setting.Usual, TypeNumber;
    var head, tail := style.before + (style.letters + style.after), PrintRest(style.rest) + [0x7d];
    assert PrintStyle(style) + [0x7d] == [0x2c] + (head + tail);
    HereSplit(g, j, [0x2c], head + tail, after);
    HereSplit(g, j + 1, head, tail, after);
    RestFirst(style.rest);
    TypeParses(g, items, j + 1, style.before, style.letters, style.after, tail + after);
    assert j + 1 + |head| == j + 1 + |style.before| + |style.letters| + |style.after|;
  }
}
