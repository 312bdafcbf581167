/** Where a pattern needs apostrophes to be inserted. */
module MessageInserts {
  import opened Utf16
  import opened MessageParts
  import opened MessageGrammar
  import opened MessageShape

  /** The insertion positions, in the order of the items. */
  function InsertList(items: seq<Item>): seq<nat>
    decreases items, 0
  {
    if items == [] then [] else ItemInserts(items[0]) + InsertList(items[1..])
  }

  function ItemInserts(item: Item): seq<nat>
    decreases item, 1
  {
    match item
    case Leaf(kind, index, _, _) => if kind == INSERT_CHAR then [index] else []
    case Group(_, _, _, _, items, _, _) => InsertList(items)
  }

  lemma {:induction false} InsertListAppend(a: seq<Item>, b: seq<Item>)
    ensures InsertList(a + b) == InsertList(a) + InsertList(b)
  {
    if a == [] {
      assert a + b == b;
    } else {
      assert (a + b)[1..] == a[1..] + b;
      InsertListAppend(a[1..], b);
    }
  }

  lemma InsertListOne(item: Item)
    ensures InsertList([item]) == ItemInserts(item)
  {
    assert [item][1..] == [];
  }

  /** Strictly increasing positions after lo and up to hi. */
  ghost predicate Between(list: seq<nat>, lo: nat, hi: nat) {
    && lo <= hi
    && (forall k :: 0 <= k < |list| ==> lo < list[k] <= hi)
    && forall k, m :: 0 <= k < m < |list| ==> list[k] < list[m]
  }

  lemma BetweenAppend(a: seq<nat>, b: seq<nat>, lo: nat, middle: nat, hi: nat)
    requires Between(a, lo, middle) && Between(b, middle, hi)
    ensures Between(a + b, lo, hi)
  {
  }

  lemma BetweenWider(a: seq<nat>, lo: nat, hi: nat, lo1: nat, hi1: nat)
    requires Between(a, lo, hi) && lo1 <= lo && hi <= hi1
    ensures Between(a, lo1, hi1)
  {
  }

  lemma LeafNoInserts(kind: PartType, index: nat, length: nat, value: int)
    ensures InsertList([Leaf(kind, index, length, value)]) == if kind == INSERT_CHAR then [index] else []
  {
    InsertListOne(Leaf(kind, index, length, value));
  }

  lemma ItemsBetween(a: seq<Item>, b: seq<Item>, lo: nat, middle: nat, hi: nat)
    requires Between(InsertList(a), lo, middle) && Between(InsertList(b), middle, hi)
    ensures Between(InsertList(a + b), lo, hi)
  {
    InsertListAppend(a, b);
    BetweenAppend(InsertList(a), InsertList(b), lo, middle, hi);
  }

  lemma NothingBetween(lo: nat, hi: nat)
    requires lo <= hi
    ensures Between([], lo, hi)
  {
  }

  /** Quoted text needs an insertion only if it is not closed: one at the end of the pattern. */
  lemma {:induction false} QuotedInserts(g: Grammar, i: nat)
    requires i <= |g.msg|
    ensures var (items, next) := g.Quoted(i);
      InsertList(items) == [] || (InsertList(items) == [|g.msg|] && next == |g.msg|)
    decreases |g.msg| - i
  {
    hide InsertList;
    var q := g.IndexOf(u_apos, i);
    if q == |g.msg| {
      LeafNoInserts(INSERT_CHAR, q, 0, u_apos as int);
    } else if q + 1 < |g.msg| && g.msg[q + 1] == u_apos {
      LeafNoInserts(SKIP_SYNTAX, q + 1, 1, 0);
      QuotedInserts(g, q + 2);
      InsertListAppend([Leaf(SKIP_SYNTAX, q + 1, 1, 0)], g.Quoted(q + 2).0);
    } else {
      LeafNoInserts(SKIP_SYNTAX, q, 1, 0);
    }
  }

  lemma TextInserts(g: Grammar, i: nat, parent: ArgType)
    requires i < |g.msg|
    ensures Between(InsertList(g.Text(i, parent).0), i, g.Text(i, parent).1)
  {
    hide InsertList, Between, Grammar.Quoted;
    LeafNoInserts(SKIP_SYNTAX, i + 1, 1, 0);
    LeafNoInserts(REPLACE_NUMBER, i, 1, 0);
    LeafNoInserts(INSERT_CHAR, i + 1, 0, u_apos as int);
    NothingInserted();
    NothingBetween(i, g.Text(i, parent).1);
    OneBetween(i + 1, i, i + 1);
    if i + 2 <= |g.msg| {
      QuoteInserts(g, i);
    }
  }

  lemma OneBetween(p: nat, lo: nat, hi: nat)
    requires lo < p <= hi
    ensures Between([p], lo, hi)
  {
  }

  lemma QuoteInserts(g: Grammar, i: nat)
    requires i + 2 <= |g.msg|
    ensures var (items, next) := g.Quoted(i + 2); Between(InsertList([Leaf(SKIP_SYNTAX, i, 1, 0)] + items), i, next)
  {
    hide InsertList, Between, Grammar.Quoted;
    LeafNoInserts(SKIP_SYNTAX, i, 1, 0);
    QuotedInserts(g, i + 2);
    InsertListAppend([Leaf(SKIP_SYNTAX, i, 1, 0)], g.Quoted(i + 2).0);
    NothingBetween(i, g.Quoted(i + 2).1);
    OneBetween(|g.msg|, i, |g.msg|);
    assert [] + InsertList(g.Quoted(i + 2).0) == InsertList(g.Quoted(i + 2).0);
  }

  lemma NothingInserted()
    ensures InsertList([]) == []
  {
  }

  lemma ArgNameInserts(g: Grammar, i: nat)
    requires i <= |g.msg| && g.ArgName(i).Ok?
    ensures InsertList(g.ArgName(i).value.items) == []
  {
    hide InsertList;
    var leaf := g.ArgName(i).value.items[0];
    assert g.ArgName(i).value.items == [leaf];
    LeafNoInserts(leaf.kind, leaf.index, leaf.length, leaf.value);
  }

  lemma ArgTypeInserts(g: Grammar, items: seq<Item>, i: nat)
    requires i <= |g.msg| && InsertList(items) == [] && g.ArgTypeName(items, i).Ok?
    ensures InsertList(g.ArgTypeName(items, i).value.items) == []
  {
    hide InsertList, Grammar.SkipWhiteSpace, Grammar.SkipArgType;
    var typeIndex := g.SkipWhiteSpace(i);
    var leaf := Leaf(ARG_TYPE, typeIndex, g.SkipArgType(typeIndex) - typeIndex, 0);
    LeafNoInserts(leaf.kind, leaf.index, leaf.length, leaf.value);
    InsertListAppend(items, [leaf]);
  }

  lemma ArgHeadInserts(g: Grammar, i: nat)
    requires i <= |g.msg| && g.ArgHead(i).Ok?
    ensures InsertList(g.ArgHead(i).value.items) == []
  {
    hide InsertList, Grammar.ArgName, Grammar.ArgTypeName, Grammar.SkipWhiteSpace;
    var nameIndex := g.SkipWhiteSpace(i);
    ArgNameInserts(g, nameIndex);
    var name := g.ArgName(nameIndex).value;
    var j := g.SkipWhiteSpace(name.next);
    if g.msg[j] == u_comma {
      ArgTypeInserts(g, name.items, j + 1);
    }
  }

  lemma NumberInserts(g: Grammar, start: nat, limit: nat, allowInfinity: bool, doubles: nat)
    requires start < limit <= |g.msg| && g.NumberPart(start, limit, allowInfinity, doubles).Ok?
    ensures InsertList(g.NumberPart(start, limit, allowInfinity, doubles).value.items) == []
  {
    hide InsertList, Grammar.NumberAt;
    var leaf := g.NumberPart(start, limit, allowInfinity, doubles).value.items[0];
    assert g.NumberPart(start, limit, allowInfinity, doubles).value.items == [leaf];
    LeafNoInserts(leaf.kind, leaf.index, leaf.length, leaf.value);
  }

  lemma ChoiceHeadInserts(g: Grammar, i: nat, doubles: nat)
    requires i <= |g.msg| && g.ChoiceHead(i, doubles).Ok?
    ensures InsertList(g.ChoiceHead(i, doubles).value.items) == []
  {
    hide InsertList, Grammar.NumberPart;
    var j := g.SkipDouble(i);
    NumberInserts(g, i, j, true, doubles);
    var number, k := g.NumberPart(i, j, true, doubles).value, g.SkipWhiteSpace(j);
    LeafNoInserts(ARG_SELECTOR, k, 1, 0);
    InsertListAppend(number.items, [Leaf(ARG_SELECTOR, k, 1, 0)]);
  }

  lemma SelectorInserts(g: Grammar, argType: ArgType, i: nat, isEmpty: bool, doubles: nat)
    requires i < |g.msg| && g.Selector(argType, i, isEmpty, doubles).Ok?
    ensures InsertList(g.Selector(argType, i, isEmpty, doubles).value.items) == []
  {
    hide InsertList, Grammar.NumberPart, Grammar.IsOffset;
    var j := g.SkipIdentifier(i);
    var d := g.SkipDouble(i + 1);
    LeafNoInserts(ARG_SELECTOR, i, d - i, 0);
    if HasPluralStyle(argType) && g.msg[i] == u_equal {
      NumberInserts(g, i + 1, d, false, doubles);
      InsertListAppend([Leaf(ARG_SELECTOR, i, d - i, 0)], g.NumberPart(i + 1, d, false, doubles).value.items);
    } else if g.IsOffset(argType, i) {
      OffsetColon(g, argType, i);
      var valueIndex := g.SkipWhiteSpace(j + 1);
      NumberInserts(g, valueIndex, g.SkipDouble(valueIndex), false, doubles);
    } else {
      LeafNoInserts(ARG_SELECTOR, i, j - i, 0);
    }
  }

  lemma {:induction false} BodyInserts(g: Grammar, i: nat, nesting: nat, parent: ArgType, doubles: nat)
    requires i <= |g.msg| && g.MessageBody(i, nesting, parent, doubles).Ok?
    ensures var b := g.MessageBody(i, nesting, parent, doubles).value; Between(InsertList(b.items), i, b.limitIndex)
    decreases |g.msg| - i, 2
  {
    hide InsertList, Between, Grammar.Argument, Grammar.Text;
    if i < |g.msg| && g.msg[i] == u_leftCurlyBrace {
      ArgumentInserts(g, i, nesting, doubles);
      var first := g.Argument(i, nesting, doubles).value;
      BodyInserts(g, first.next, nesting, parent, first.doubles);
      var rest := g.MessageBody(first.next, nesting, parent, first.doubles).value;
      ItemsBetween(first.items, rest.items, i, first.next, rest.limitIndex);
    } else if i < |g.msg| && !g.EndsMessage(i, nesting, parent) {
      TextInserts(g, i, parent);
      var (items, next) := g.Text(i, parent);
      BodyInserts(g, next, nesting, parent, doubles);
      var rest := g.MessageBody(next, nesting, parent, doubles).value;
      ItemsBetween(items, rest.items, i, next, rest.limitIndex);
    } else {
      NothingInserted();
      NothingBetween(i, i);
    }
  }

  lemma {:induction false} MessageInserts(g: Grammar, i: nat, startLength: nat, nesting: nat, parent: ArgType, doubles: nat)
    requires i + startLength <= |g.msg| && g.Message(i, startLength, nesting, parent, doubles).Ok?
    ensures var m := g.Message(i, startLength, nesting, parent, doubles).value;
      Between(InsertList(m.items), i + startLength, m.next)
    decreases |g.msg| - i, 3
  {
    hide InsertList, Between, Grammar.MessageBody;
    BodyInserts(g, i + startLength, nesting, parent, doubles);
    var b := g.MessageBody(i + startLength, nesting, parent, doubles).value;
    BetweenWider(InsertList(b.items), i + startLength, b.limitIndex, i + startLength, b.next);
    InsertListOne(Group(true, i, startLength, nesting, b.items, b.limitIndex, b.limitLength));
  }

  lemma {:induction false} ArgumentInserts(g: Grammar, i: nat, nesting: nat, doubles: nat)
    requires i < |g.msg| && g.Argument(i, nesting, doubles).Ok?
    ensures var a := g.Argument(i, nesting, doubles).value; Between(InsertList(a.items), i, a.next)
    decreases |g.msg| - i, 1
  {
    hide InsertList, Between, Grammar.ArgHead, Grammar.ArgStyle;
    ArgHeadInserts(g, i + 1);
    var head := g.ArgHead(i + 1).value;
    if !head.comma {
      InsertListOne(Group(false, i, 1, Code(head.argType), head.items, head.next, 1));
      NothingBetween(i, head.next + 1);
    } else {
      StyleInserts(g, head.argType, head.next, nesting, doubles);
      var style := g.ArgStyle(head.argType, head.next, nesting, doubles).value;
      InsertListAppend(head.items, style.items);
      assert [] + InsertList(style.items) == InsertList(style.items);
      BetweenWider(InsertList(style.items), head.next, style.next, i, style.next + 1);
      InsertListOne(Group(false, i, 1, Code(head.argType), head.items + style.items, style.next, 1));
    }
  }

  lemma {:induction false} StyleInserts(g: Grammar, argType: ArgType, i: nat, nesting: nat, doubles: nat)
    requires i <= |g.msg| && argType != NONE && g.ArgStyle(argType, i, nesting, doubles).Ok?
    ensures var s := g.ArgStyle(argType, i, nesting, doubles).value; Between(InsertList(s.items), i, s.next)
    decreases |g.msg| - i, 5
  {
    hide InsertList, Between, Grammar.SimpleStyle, Grammar.ChoiceStyle, Grammar.PluralOrSelectStyle;
    if argType == SIMPLE {
      var j := g.SimpleStyle(i, i, 0).value;
      LeafNoInserts(ARG_STYLE, i, j - i, 0);
      NothingBetween(i, j);
    } else if argType == CHOICE {
      var j := g.SkipWhiteSpace(i);
      ChoiceInserts(g, j, nesting, doubles);
      var s := g.ChoiceStyle(j, nesting, doubles).value;
      BetweenWider(InsertList(s.items), j, s.next, i, s.next);
    } else {
      PluralInserts(g, argType, i, nesting, true, false, doubles);
    }
  }

  lemma {:induction false} ChoiceInserts(g: Grammar, i: nat, nesting: nat, doubles: nat)
    requires i <= |g.msg| && g.ChoiceStyle(i, nesting, doubles).Ok?
    ensures var s := g.ChoiceStyle(i, nesting, doubles).value; Between(InsertList(s.items), i, s.next)
    decreases |g.msg| - i, 4
  {
    hide InsertList, Between, Grammar.ChoiceHead, Grammar.Message;
    ChoiceHeadInserts(g, i, doubles);
    var head := g.ChoiceHead(i, doubles).value;
    MessageInserts(g, head.next, 0, nesting + 1, CHOICE, head.doubles);
    var message := g.Message(head.next, 0, nesting + 1, CHOICE, head.doubles).value;
    NothingBetween(i, head.next);
    ItemsBetween(head.items, message.items, i, head.next, message.next);
    if g.msg[message.next] != u_rightCurlyBrace {
      var j := g.SkipWhiteSpace(message.next + 1);
      ChoiceInserts(g, j, nesting, message.doubles);
      var rest := g.ChoiceStyle(j, nesting, message.doubles).value;
      BetweenWider(InsertList(rest.items), j, rest.next, message.next, rest.next);
      ItemsBetween(head.items + message.items, rest.items, i, message.next, rest.next);
    }
  }

  lemma {:induction false} PluralInserts(g: Grammar, argType: ArgType, i: nat, nesting: nat, isEmpty: bool, hasOther: bool,
                                         doubles: nat)
    requires i <= |g.msg| && g.PluralOrSelectStyle(argType, i, nesting, isEmpty, hasOther, doubles).Ok?
    ensures var s := g.PluralOrSelectStyle(argType, i, nesting, isEmpty, hasOther, doubles).value;
      Between(InsertList(s.items), i, s.next)
    decreases |g.msg| - i, 4
  {
    hide InsertList, Between, Grammar.Selector, Grammar.Message, Grammar.IsSelector, Grammar.IsOther;
    var j := g.SkipWhiteSpace(i);
    NothingInserted();
    NothingBetween(i, j);
    if g.msg[j] != u_rightCurlyBrace {
      SelectorInserts(g, argType, j, isEmpty, doubles);
      var head := g.Selector(argType, j, isEmpty, doubles).value;
      NothingBetween(i, head.next);
      if !g.IsSelector(argType, j) {
        PluralInserts(g, argType, head.next, nesting, false, hasOther, head.doubles);
        var rest := g.PluralOrSelectStyle(argType, head.next, nesting, false, hasOther, head.doubles).value;
        ItemsBetween(head.items, rest.items, i, head.next, rest.next);
      } else {
        var k := g.SkipWhiteSpace(head.next);
        MessageInserts(g, k, 1, nesting + 1, argType, head.doubles);
        var message := g.Message(k, 1, nesting + 1, argType, head.doubles).value;
        BetweenWider(InsertList(message.items), k + 1, message.next, head.next, message.next);
        ItemsBetween(head.items, message.items, i, head.next, message.next);
        var other := hasOther || g.IsOther(argType, j);
        PluralInserts(g, argType, message.next, nesting, false, other, message.doubles);
        var rest := g.PluralOrSelectStyle(argType, message.next, nesting, false, other, message.doubles).value;
        ItemsBetween(head.items + message.items, rest.items, i, message.next, rest.next);
      }
    }
  }
}
