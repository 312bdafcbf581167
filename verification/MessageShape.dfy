/** The parts of every pattern are properly nested and in the order of the text. */
module MessageShape {
  import opened Utf16
  import opened MessageParts
  import opened MessageGrammar

  function Start(item: Item): nat {
    item.index
  }

  function End(item: Item): nat {
    match item
    case Leaf(_, index, _, _) => index
    case Group(_, _, _, _, _, limitIndex, _) => limitIndex
  }

  /** The items are between from and to, in order, and so is everything inside them. */
  ghost predicate Shaped(items: seq<Item>, from: nat, to: nat)
    decreases items, 0
  {
    if items == [] then from <= to
    else from <= Start(items[0]) && ItemShaped(items[0]) && Shaped(items[1..], End(items[0]), to)
  }

  ghost predicate ItemShaped(item: Item)
    decreases item, 1
  {
    match item
    case Leaf(kind, _, _, _) => kind !in {MSG_START, MSG_LIMIT, ARG_START, ARG_LIMIT}
    case Group(_, index, _, _, items, limitIndex, _) => Shaped(items, index, limitIndex)
  }

  lemma {:induction false} ShapedBounds(items: seq<Item>, from: nat, to: nat)
    requires Shaped(items, from, to)
    ensures from <= to
    ensures items != [] ==> End(items[0]) <= to && Start(items[0]) <= End(items[0])
    decreases items, 0
  {
    if items != [] {
      ShapedBounds(items[1..], End(items[0]), to);
      ItemShapedBounds(items[0]);
    }
  }

  lemma {:induction false} ItemShapedBounds(item: Item)
    requires ItemShaped(item)
    ensures Start(item) <= End(item)
    decreases item, 1
  {
    if item.Group? {
      ShapedBounds(item.items, item.index, item.limitIndex);
    }
  }

  lemma {:induction false} ShapedWider(items: seq<Item>, from: nat, to: nat, from1: nat, to1: nat)
    requires Shaped(items, from, to) && from1 <= from && to <= to1
    ensures Shaped(items, from1, to1)
    decreases |items|
  {
    hide ItemShaped;
    if items != [] {
      ShapedWider(items[1..], End(items[0]), to, End(items[0]), to1);
    }
  }

  lemma {:induction false} ShapedAppend(a: seq<Item>, b: seq<Item>, from: nat, middle: nat, to: nat)
    requires Shaped(a, from, middle) && Shaped(b, middle, to)
    ensures Shaped(a + b, from, to)
    decreases |a|
  {
    hide ItemShaped;
    if a == [] {
      assert a + b == b;
      ShapedWider(b, middle, to, from, to);
    } else {
      assert (a + b)[1..] == a[1..] + b;
      ShapedAppend(a[1..], b, End(a[0]), middle, to);
    }
  }

  lemma ShapedOne(item: Item, from: nat, to: nat)
    requires from <= Start(item) && End(item) <= to && ItemShaped(item)
    ensures Shaped([item], from, to)
  {
    assert [item][1..] == [];
  }

  lemma ShapedLeaf(kind: PartType, index: nat, length: nat, value: int, from: nat, to: nat)
    requires from <= index <= to && kind !in {MSG_START, MSG_LIMIT, ARG_START, ARG_LIMIT}
    ensures Shaped([Leaf(kind, index, length, value)], from, to)
  {
    ShapedOne(Leaf(kind, index, length, value), from, to);
  }

  lemma {:induction false} ShapedParts(items: seq<Item>, from: nat, to: nat, base: nat)
    requires Shaped(items, from, to)
    ensures LeavesOk(items) && Ordered(Flatten(items, base), from, to)
    decreases items, 0
  {
    ShapedBounds(items, from, to);
    if items != [] {
      var first := FlattenItem(items[0], base);
      ItemShapedParts(items[0], base);
      ShapedParts(items[1..], End(items[0]), to, base + |first|);
      assert forall i :: 0 < i < |items| ==> items[i] == items[1..][i - 1];
      OrderedAppend(first, Flatten(items[1..], base + |first|), from, End(items[0]), to);
    }
  }

  lemma {:induction false} ItemShapedParts(item: Item, base: nat)
    requires ItemShaped(item)
    ensures LeafOk(item) && Ordered(FlattenItem(item, base), Start(item), End(item)) && Start(item) <= End(item)
    decreases item, 1
  {
    ItemShapedBounds(item);
    match item
    case Leaf(_, _, _, _) =>
    case Group(_, _, _, _, items, _, _) =>
      ShapedParts(items, item.index, item.limitIndex, base + 1);
  }

  lemma {:induction false} QuotedShaped(g: Grammar, i: nat)
    requires i <= |g.msg|
    ensures Shaped(g.Quoted(i).0, i, g.Quoted(i).1)
    decreases |g.msg| - i
  {
    hide Shaped;
    var q := g.IndexOf(u_apos, i);
    if q == |g.msg| {
      ShapedLeaf(INSERT_CHAR, q, 0, u_apos as int, i, q);
    } else if q + 1 < |g.msg| && g.msg[q + 1] == u_apos {
      ShapedLeaf(SKIP_SYNTAX, q + 1, 1, 0, i, q + 2);
      QuotedShaped(g, q + 2);
      ShapedAppend([Leaf(SKIP_SYNTAX, q + 1, 1, 0)], g.Quoted(q + 2).0, i, q + 2, g.Quoted(i).1);
    } else {
      ShapedLeaf(SKIP_SYNTAX, q, 1, 0, i, q + 1);
    }
  }

  lemma TextShaped(g: Grammar, i: nat, parent: ArgType)
    requires i < |g.msg|
    ensures Shaped(g.Text(i, parent).0, i, g.Text(i, parent).1)
  {
    hide Shaped, Grammar.Quoted;
    ShapedNothing(i, i + 1);
    ShapedLeaf(SKIP_SYNTAX, i + 1, 1, 0, i, i + 2);
    ShapedLeaf(REPLACE_NUMBER, i, 1, 0, i, i + 1);
    ShapedLeaf(SKIP_SYNTAX, i, 1, 0, i, i + 2);
    ShapedLeaf(INSERT_CHAR, i + 1, 0, u_apos as int, i, i + 1);
    if i + 2 <= |g.msg| {
      QuotedShaped(g, i + 2);
      ShapedAppend([Leaf(SKIP_SYNTAX, i, 1, 0)], g.Quoted(i + 2).0, i, i + 2, g.Quoted(i + 2).1);
    }
  }

  lemma ShapedNothing(from: nat, to: nat)
    requires from <= to
    ensures Shaped([], from, to)
  {
  }

  lemma ArgHeadShaped(g: Grammar, i: nat)
    requires i <= |g.msg| && g.ArgHead(i).Ok?
    ensures var head := g.ArgHead(i).value; Shaped(head.items, i, head.next)
  {
    hide Shaped;
    var nameIndex := g.SkipWhiteSpace(i);
    var name := g.ArgName(nameIndex).value;
    var leaf := name.items[0];
    assert name.items == [leaf];
    ShapedLeaf(leaf.kind, leaf.index, leaf.length, leaf.value, i, name.next);
    var j := g.SkipWhiteSpace(name.next);
    ShapedWider(name.items, i, name.next, i, g.ArgHead(i).value.next);
    if g.msg[j] == u_comma {
      var typeIndex := g.SkipWhiteSpace(j + 1);
      var all := g.ArgHead(i).value;
      ShapedLeaf(ARG_TYPE, typeIndex, g.SkipArgType(typeIndex) - typeIndex, 0, name.next, all.next);
      ShapedAppend(name.items, [Leaf(ARG_TYPE, typeIndex, g.SkipArgType(typeIndex) - typeIndex, 0)], i, name.next, all.next);
    }
  }

  lemma NumberShaped(g: Grammar, start: nat, limit: nat, allowInfinity: bool, doubles: nat)
    requires start < limit <= |g.msg| && g.NumberPart(start, limit, allowInfinity, doubles).Ok?
    ensures Shaped(g.NumberPart(start, limit, allowInfinity, doubles).value.items, start, limit)
  {
    hide Shaped, Grammar.NumberAt;
    var leaf := g.NumberPart(start, limit, allowInfinity, doubles).value.items[0];
    assert g.NumberPart(start, limit, allowInfinity, doubles).value.items == [leaf];
    ShapedLeaf(leaf.kind, leaf.index, leaf.length, leaf.value, start, limit);
  }

  lemma ChoiceHeadShaped(g: Grammar, i: nat, doubles: nat)
    requires i <= |g.msg| && g.ChoiceHead(i, doubles).Ok?
    ensures var head := g.ChoiceHead(i, doubles).value; Shaped(head.items, i, head.next)
  {
    hide Shaped, Grammar.NumberPart;
    var j := g.SkipDouble(i);
    NumberShaped(g, i, j, true, doubles);
    var number, k := g.NumberPart(i, j, true, doubles).value, g.SkipWhiteSpace(j);
    ShapedLeaf(ARG_SELECTOR, k, 1, 0, j, k + 1);
    ShapedAppend(number.items, [Leaf(ARG_SELECTOR, k, 1, 0)], i, j, k + 1);
  }

  lemma SelectorShaped(g: Grammar, argType: ArgType, i: nat, isEmpty: bool, doubles: nat)
    requires i < |g.msg| && g.Selector(argType, i, isEmpty, doubles).Ok?
    ensures var head := g.Selector(argType, i, isEmpty, doubles).value; Shaped(head.items, i, head.next)
  {
    hide Shaped, Grammar.NumberPart, Grammar.IsOffset;
    var j := g.SkipIdentifier(i);
    var d := g.SkipDouble(i + 1);
    if HasPluralStyle(argType) && g.msg[i] == u_equal {
      NumberShaped(g, i + 1, d, false, doubles);
      ShapedLeaf(ARG_SELECTOR, i, d - i, 0, i, i + 1);
      ShapedAppend([Leaf(ARG_SELECTOR, i, d - i, 0)], g.NumberPart(i + 1, d, false, doubles).value.items, i, i + 1, d);
    } else if g.IsOffset(argType, i) {
      OffsetColon(g, argType, i);
      var valueIndex := g.SkipWhiteSpace(j + 1);
      NumberShaped(g, valueIndex, g.SkipDouble(valueIndex), false, doubles);
      ShapedWider(g.NumberPart(valueIndex, g.SkipDouble(valueIndex), false, doubles).value.items,
                  valueIndex, g.SkipDouble(valueIndex), i, g.SkipDouble(valueIndex));
    } else {
      ShapedLeaf(ARG_SELECTOR, i, j - i, 0, i, j);
    }
  }

  lemma OffsetColon(g: Grammar, argType: ArgType, i: nat)
    requires i <= |g.msg| && g.IsOffset(argType, i)
    ensures g.SkipIdentifier(i) < |g.msg|
  {
  }

  lemma {:induction false} BodyShaped(g: Grammar, i: nat, nesting: nat, parent: ArgType, doubles: nat)
    requires i <= |g.msg| && g.MessageBody(i, nesting, parent, doubles).Ok?
    ensures var b := g.MessageBody(i, nesting, parent, doubles).value; Shaped(b.items, i, b.limitIndex)
    decreases |g.msg| - i, 2
  {
    hide Shaped, Grammar.Argument, Grammar.Text;
    if i < |g.msg| && g.msg[i] == u_leftCurlyBrace {
      ArgumentShaped(g, i, nesting, doubles);
      var first := g.Argument(i, nesting, doubles).value;
      BodyShaped(g, first.next, nesting, parent, first.doubles);
      var rest := g.MessageBody(first.next, nesting, parent, first.doubles).value;
      ShapedAppend(first.items, rest.items, i, first.next, rest.limitIndex);
    } else if i < |g.msg| && !g.EndsMessage(i, nesting, parent) {
      TextShaped(g, i, parent);
      var (items, next) := g.Text(i, parent);
      BodyShaped(g, next, nesting, parent, doubles);
      var rest := g.MessageBody(next, nesting, parent, doubles).value;
      ShapedAppend(items, rest.items, i, next, rest.limitIndex);
    } else {
      ShapedNothing(i, i);
    }
  }

  lemma {:induction false} MessageShaped(g: Grammar, i: nat, startLength: nat, nesting: nat, parent: ArgType, doubles: nat)
    requires i + startLength <= |g.msg| && g.Message(i, startLength, nesting, parent, doubles).Ok?
    ensures var m := g.Message(i, startLength, nesting, parent, doubles).value; Shaped(m.items, i, m.next)
    decreases |g.msg| - i, 3
  {
    hide Shaped, Grammar.MessageBody;
    BodyShaped(g, i + startLength, nesting, parent, doubles);
    var b := g.MessageBody(i + startLength, nesting, parent, doubles).value;
    ShapedWider(b.items, i + startLength, b.limitIndex, i, b.limitIndex);
    ShapedGroup(true, i, startLength, nesting, b.items, b.limitIndex, b.limitLength, i, b.next);
  }

  lemma ShapedGroup(isMessage: bool, index: nat, length: nat, value: int, items: seq<Item>, limitIndex: nat,
                    limitLength: nat, from: nat, to: nat)
    requires from <= index && limitIndex <= to && Shaped(items, index, limitIndex)
    ensures Shaped([Group(isMessage, index, length, value, items, limitIndex, limitLength)], from, to)
  {
    ShapedOne(Group(isMessage, index, length, value, items, limitIndex, limitLength), from, to);
  }

  lemma {:induction false} ArgumentShaped(g: Grammar, i: nat, nesting: nat, doubles: nat)
    requires i < |g.msg| && g.Argument(i, nesting, doubles).Ok?
    ensures var a := g.Argument(i, nesting, doubles).value; Shaped(a.items, i, a.next)
    decreases |g.msg| - i, 1
  {
    hide Shaped, Grammar.ArgHead, Grammar.ArgStyle;
    ArgHeadShaped(g, i + 1);
    var head := g.ArgHead(i + 1).value;
    ShapedWider(head.items, i + 1, head.next, i, head.next);
    if !head.comma {
      ShapedGroup(false, i, 1, Code(head.argType), head.items, head.next, 1, i, head.next + 1);
    } else {
      StyleShaped(g, head.argType, head.next, nesting, doubles);
      var style := g.ArgStyle(head.argType, head.next, nesting, doubles).value;
      ShapedAppend(head.items, style.items, i, head.next, style.next);
      ShapedGroup(false, i, 1, Code(head.argType), head.items + style.items, style.next, 1, i, style.next + 1);
    }
  }

  lemma {:induction false} StyleShaped(g: Grammar, argType: ArgType, i: nat, nesting: nat, doubles: nat)
    requires i <= |g.msg| && argType != NONE && g.ArgStyle(argType, i, nesting, doubles).Ok?
    ensures var s := g.ArgStyle(argType, i, nesting, doubles).value; Shaped(s.items, i, s.next)
    decreases |g.msg| - i, 5
  {
    hide Shaped, Grammar.SimpleStyle, Grammar.ChoiceStyle, Grammar.PluralOrSelectStyle;
    if argType == SIMPLE {
      var j := g.SimpleStyle(i, i, 0).value;
      ShapedLeaf(ARG_STYLE, i, j - i, 0, i, j);
    } else if argType == CHOICE {
      var j := g.SkipWhiteSpace(i);
      ChoiceShaped(g, j, nesting, doubles);
      var s := g.ChoiceStyle(j, nesting, doubles).value;
      ShapedWider(s.items, j, s.next, i, s.next);
    } else {
      PluralShaped(g, argType, i, nesting, true, false, doubles);
    }
  }

  lemma {:induction false} ChoiceShaped(g: Grammar, i: nat, nesting: nat, doubles: nat)
    requires i <= |g.msg| && g.ChoiceStyle(i, nesting, doubles).Ok?
    ensures var s := g.ChoiceStyle(i, nesting, doubles).value; Shaped(s.items, i, s.next)
    decreases |g.msg| - i, 4
  {
    hide Shaped, Grammar.ChoiceHead, Grammar.Message;
    ChoiceHeadShaped(g, i, doubles);
    var head := g.ChoiceHead(i, doubles).value;
    MessageShaped(g, head.next, 0, nesting + 1, CHOICE, head.doubles);
    var message := g.Message(head.next, 0, nesting + 1, CHOICE, head.doubles).value;
    ShapedAppend(head.items, message.items, i, head.next, message.next);
    if g.msg[message.next] != u_rightCurlyBrace {
      var j := g.SkipWhiteSpace(message.next + 1);
      ChoiceShaped(g, j, nesting, message.doubles);
      var rest := g.ChoiceStyle(j, nesting, message.doubles).value;
      ShapedWider(rest.items, j, rest.next, message.next, rest.next);
      ShapedAppend(head.items + message.items, rest.items, i, message.next, rest.next);
    }
  }

  lemma {:induction false} PluralShaped(g: Grammar, argType: ArgType, i: nat, nesting: nat, isEmpty: bool, hasOther: bool,
                                        doubles: nat)
    requires i <= |g.msg| && g.PluralOrSelectStyle(argType, i, nesting, isEmpty, hasOther, doubles).Ok?
    ensures var s := g.PluralOrSelectStyle(argType, i, nesting, isEmpty, hasOther, doubles).value; Shaped(s.items, i, s.next)
    decreases |g.msg| - i, 4
  {
    hide Shaped, Grammar.Selector, Grammar.Message, Grammar.IsSelector, Grammar.IsOther;
    var j := g.SkipWhiteSpace(i);
    if g.msg[j] == u_rightCurlyBrace {
      ShapedNothing(i, j);
    } else {
      SelectorShaped(g, argType, j, isEmpty, doubles);
      var head := g.Selector(argType, j, isEmpty, doubles).value;
      ShapedWider(head.items, j, head.next, i, head.next);
      if !g.IsSelector(argType, j) {
        PluralShaped(g, argType, head.next, nesting, false, hasOther, head.doubles);
        var rest := g.PluralOrSelectStyle(argType, head.next, nesting, false, hasOther, head.doubles).value;
        ShapedAppend(head.items, rest.items, i, head.next, rest.next);
      } else {
        var k := g.SkipWhiteSpace(head.next);
        MessageShaped(g, k, 1, nesting + 1, argType, head.doubles);
        var message := g.Message(k, 1, nesting + 1, argType, head.doubles).value;
        ShapedWider(message.items, k, message.next, head.next, message.next);
        ShapedAppend(head.items, message.items, i, head.next, message.next);
        var other := hasOther || g.IsOther(argType, j);
        PluralShaped(g, argType, message.next, nesting, false, other, message.doubles);
        var rest := g.PluralOrSelectStyle(argType, message.next, nesting, false, other, message.doubles).value;
        ShapedAppend(head.items + message.items, rest.items, i, message.next, rest.next);
      }
    }
  }

  /** The parts of every pattern which parses: nested brackets, in order, in one message which ends with the pattern. */
  lemma PatternParts(g: Grammar)
    requires g.Pattern().Ok?
    ensures var parts := Flatten(g.Pattern().value.items, 0);
      && WellBracketed(parts, 0) && Ordered(parts, 0, |g.msg|) && |parts| >= 2
      && parts[0] == Part(MSG_START, 0, 0, 0, |parts| - 1)
      && parts[|parts| - 1] == Part(MSG_LIMIT, |g.msg|, 0, 0, 0)
  {
    hide Shaped, Flatten, LeavesOk, Ordered, WellBracketed;
    var p := g.Pattern().value;
    MessageShaped(g, 0, 0, 0, NONE, 0);
    ShapedWider(p.items, 0, p.next, 0, |g.msg|);
    ShapedParts(p.items, 0, |g.msg|, 0);
    FlattenBracketed(p.items, 0);
    assert p.items == [p.items[0]];
    FlattenOne(p.items[0], 0);
    TopLevelEnd(g, 0, 0);
  }

  /** A top-level message goes on to the end of the pattern. */
  lemma {:induction false} TopLevelEnd(g: Grammar, i: nat, doubles: nat)
    requires i <= |g.msg| && g.MessageBody(i, 0, NONE, doubles).Ok?
    ensures var b := g.MessageBody(i, 0, NONE, doubles).value;
      b.limitIndex == b.next == |g.msg| && b.limitLength == 0
    decreases |g.msg| - i
  {
    hide Grammar.Argument, Grammar.Text;
    if i < |g.msg| {
      if g.msg[i] == u_leftCurlyBrace {
        var first := g.Argument(i, 0, doubles).value;
        TopLevelEnd(g, first.next, first.doubles);
      } else {
        var (items, next) := g.Text(i, NONE);
        TopLevelEnd(g, next, doubles);
      }
    }
  }
}
