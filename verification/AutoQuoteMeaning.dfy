/** Auto-quoting keeps the parts of a pattern, and quoting twice is quoting once. */
module AutoQuoteMeaning {
  import opened Utf16
  import opened MessageParts
  import opened MessageGrammar
  import opened MessageShape
  import opened MessageInserts
  import opened AutoQuote
  import opened AutoQuoteSteps

  function MapBody(s: set<nat>, b: Body): Body {
    Body(MapItems(s, b.items), Mu(s, b.limitIndex), b.limitLength, Mu(s, b.next), b.doubles)
  }

  lemma MapGroup(s: set<nat>, isMessage: bool, index: nat, length: nat, value: int, items: seq<Item>,
                 limitIndex: nat, limitLength: nat)
    ensures MapItems(s, [Group(isMessage, index, length, value, items, limitIndex, limitLength)]) ==
            [Group(isMessage, Mu(s, index), length, value, MapItems(s, items), Mu(s, limitIndex), limitLength)]
  {
    MapOne(s, Group(isMessage, index, length, value, items, limitIndex, limitLength));
  }

  lemma {:induction false} BodySim(p: Grammar, q: Grammar, s: set<nat>, i: nat, nesting: nat, parent: ArgType, doubles: nat)
    requires Quotes(p, q, s) && i <= |p.msg| && p.MessageBody(i, nesting, parent, doubles).Ok?
    requires var b := p.MessageBody(i, nesting, parent, doubles).value; Matches(s, i, b.next, InsertList(b.items))
    ensures Mu(s, i) <= |q.msg|
    ensures q.MessageBody(Mu(s, i), nesting, parent, doubles) ==
              Ok(MapBody(s, p.MessageBody(i, nesting, parent, doubles).value))
    decreases |p.msg| - i, 2
  {
    hide Mu, MapItems, InsertList, Matches, Between, Quotes, Grammar.Argument, Grammar.Text;
    var b := p.MessageBody(i, nesting, parent, doubles).value;
    CharAt(p, q, s, i);
    if i < |p.msg| && p.msg[i] == u_leftCurlyBrace {
      var first := p.Argument(i, nesting, doubles).value;
      var rest := p.MessageBody(first.next, nesting, parent, first.doubles).value;
      ArgumentInserts(p, i, nesting, doubles);
      BodyInserts(p, first.next, nesting, parent, first.doubles);
      BetweenWider(InsertList(rest.items), first.next, rest.limitIndex, first.next, rest.next);
      InsertListAppend(first.items, rest.items);
      MatchesSplit(s, i, first.next, b.next, InsertList(first.items), InsertList(rest.items));
      ArgumentSim(p, q, s, i, nesting, doubles);
      BodySim(p, q, s, first.next, nesting, parent, first.doubles);
      MapAppend(s, first.items, rest.items);
    } else if i < |p.msg| && !p.EndsMessage(i, nesting, parent) {
      var (items, next) := p.Text(i, parent);
      var rest := p.MessageBody(next, nesting, parent, doubles).value;
      TextInserts(p, i, parent);
      BodyInserts(p, next, nesting, parent, doubles);
      BetweenWider(InsertList(rest.items), next, rest.limitIndex, next, rest.next);
      InsertListAppend(items, rest.items);
      MatchesSplit(s, i, next, b.next, InsertList(items), InsertList(rest.items));
      TextSim(p, q, s, i, parent);
      BodySim(p, q, s, next, nesting, parent, doubles);
      MapAppend(s, items, rest.items);
    } else {
      NothingInserted();
      MapNothing(s);
      if b.next > i {
        MatchesNext(s, i);
      }
    }
  }

  /** No insertion right after i. */
  lemma MatchesNext(s: set<nat>, i: nat)
    requires Matches(s, i, i + 1, [])
    ensures Mu(s, i + 1) == Mu(s, i) + 1
  {
    hide Mu;
    FreeNext(s, i);
  }

  lemma {:induction false} MessageSim(p: Grammar, q: Grammar, s: set<nat>, i: nat, startLength: nat, nesting: nat,
                                      parent: ArgType, doubles: nat)
    requires Quotes(p, q, s) && i + startLength <= |p.msg| && p.Message(i, startLength, nesting, parent, doubles).Ok?
    requires var m := p.Message(i, startLength, nesting, parent, doubles).value; Matches(s, i, m.next, InsertList(m.items))
    ensures Mu(s, i) + startLength <= |q.msg|
    ensures q.Message(Mu(s, i), startLength, nesting, parent, doubles) ==
              Ok(MapPiece(s, p.Message(i, startLength, nesting, parent, doubles).value))
    decreases |p.msg| - i, 3
  {
    hide Mu, MapItems, InsertList, Matches, Between, Quotes, Free, Grammar.MessageBody;
    var m := p.Message(i, startLength, nesting, parent, doubles).value;
    var start := i + startLength;
    var b := p.MessageBody(start, nesting, parent, doubles).value;
    MessageInserts.MessageInserts(p, i, startLength, nesting, parent, doubles);
    MatchesNothing(s, i, start, m.next, InsertList(m.items));
    FreeShift(s, i, start);
    InsertListOne(m.items[0]);
    BodySim(p, q, s, start, nesting, parent, doubles);
    MapGroup(s, true, i, startLength, nesting, b.items, b.limitIndex, b.limitLength);
  }

  lemma {:induction false} ArgumentSim(p: Grammar, q: Grammar, s: set<nat>, i: nat, nesting: nat, doubles: nat)
    requires Quotes(p, q, s) && i < |p.msg| && p.Argument(i, nesting, doubles).Ok?
    requires var a := p.Argument(i, nesting, doubles).value; Matches(s, i, a.next, InsertList(a.items))
    ensures Mu(s, i) < |q.msg|
    ensures q.Argument(Mu(s, i), nesting, doubles) == Ok(MapPiece(s, p.Argument(i, nesting, doubles).value))
    decreases |p.msg| - i, 1
  {
    hide Mu, MapItems, InsertList, Matches, Between, Quotes, Free, Same, Grammar.ArgHead, Grammar.ArgStyle;
    var a := p.Argument(i, nesting, doubles).value;
    var head := p.ArgHead(i + 1).value;
    ArgHeadInserts(p, i + 1);
    InsertListOne(a.items[0]);
    CharAt(p, q, s, i);
    if !head.comma {
      NothingBetween(head.next, a.next);
      MatchesNothing(s, i, head.next, a.next, []);
      MatchesNext(s, head.next);
      MakeSame(p, q, s, i, head.next);
      SameAt(p, q, s, i, head.next, i + 1);
      SameAt(p, q, s, i, head.next, head.next);
      SameArgHead(p, q, s, i, head.next, i + 1);
      MapGroup(s, false, i, 1, Code(head.argType), head.items, head.next, 1);
    } else {
      StyledSim(p, q, s, i, nesting, doubles);
    }
  }

  lemma {:induction false} StyledSim(p: Grammar, q: Grammar, s: set<nat>, i: nat, nesting: nat, doubles: nat)
    requires Quotes(p, q, s) && i < |p.msg| && p.Argument(i, nesting, doubles).Ok? && p.ArgHead(i + 1).value.comma
    requires var a := p.Argument(i, nesting, doubles).value; Matches(s, i, a.next, InsertList(a.items))
    ensures Mu(s, i) < |q.msg|
    ensures q.Argument(Mu(s, i), nesting, doubles) == Ok(MapPiece(s, p.Argument(i, nesting, doubles).value))
    decreases |p.msg| - i, 0
  {
    hide Mu, MapItems, InsertList, Matches, Between, Quotes, Free, Same, Grammar.ArgHead, Grammar.ArgStyle;
    var a := p.Argument(i, nesting, doubles).value;
    var head := p.ArgHead(i + 1).value;
    var style := p.ArgStyle(head.argType, head.next, nesting, doubles).value;
    var list := InsertList(style.items);
    ArgHeadInserts(p, i + 1);
    InsertListOne(a.items[0]);
    InsertListAppend(head.items, style.items);
    assert [] + list == list;
    StyleInserts(p, head.argType, head.next, nesting, doubles);
    BetweenWider(list, head.next, style.next, head.next, a.next);
    MatchesNothing(s, i, head.next, a.next, list);
    MatchesEnd(s, head.next, style.next, a.next, list);
    MatchesShorter(s, head.next, a.next, style.next, list);
    FreeShift(s, style.next, a.next);
    CharAt(p, q, s, i);
    CharAt(p, q, s, style.next);
    MakeSame(p, q, s, i, head.next);
    SameAt(p, q, s, i, head.next, i + 1);
    SameArgHead(p, q, s, i, head.next, i + 1);
    StyleSim(p, q, s, head.argType, head.next, nesting, doubles);
    MapAppend(s, head.items, style.items);
    MapGroup(s, false, i, 1, Code(head.argType), head.items + style.items, style.next, 1);
  }

  lemma {:induction false} StyleSim(p: Grammar, q: Grammar, s: set<nat>, argType: ArgType, i: nat, nesting: nat, doubles: nat)
    requires Quotes(p, q, s) && i <= |p.msg| && argType != NONE && p.ArgStyle(argType, i, nesting, doubles).Ok?
    requires var y := p.ArgStyle(argType, i, nesting, doubles).value; Matches(s, i, y.next, InsertList(y.items))
    ensures Mu(s, i) <= |q.msg|
    ensures q.ArgStyle(argType, Mu(s, i), nesting, doubles) == Ok(MapPiece(s, p.ArgStyle(argType, i, nesting, doubles).value))
    decreases |p.msg| - i, 5
  {
    hide Mu, MapItems, InsertList, Matches, Between, Quotes, Free, Same;
    hide Grammar.SimpleStyle, Grammar.ChoiceStyle, Grammar.PluralOrSelectStyle;
    CharAt(p, q, s, i);
    if argType == SIMPLE {
      var j := p.SimpleStyle(i, i, 0).value;
      LeafNoInserts(ARG_STYLE, i, j - i, 0);
      NothingBetween(j, j);
      MatchesNothing(s, i, j, j, []);
      MakeSame(p, q, s, i, j);
      SameSimpleStyle(p, q, s, i, j, i, i, 0);
      SameSlice(p, q, s, i, j, i, j);
      MapLeaf(s, ARG_STYLE, i, j - i, 0);
    } else if argType == CHOICE {
      var j := p.SkipWhiteSpace(i);
      var y := p.ChoiceStyle(j, nesting, doubles).value;
      ChoiceInserts(p, j, nesting, doubles);
      MatchesNothing(s, i, j, y.next, InsertList(y.items));
      MakeSame(p, q, s, i, j);
      SameSkipWhiteSpace(p, q, s, i, j, i);
      SameAt(p, q, s, i, j, j);
      ChoiceSim(p, q, s, j, nesting, doubles);
    } else {
      PluralSim(p, q, s, argType, i, nesting, true, false, doubles);
    }
  }

  lemma {:induction false} ChoiceSim(p: Grammar, q: Grammar, s: set<nat>, i: nat, nesting: nat, doubles: nat)
    requires Quotes(p, q, s) && i <= |p.msg| && p.ChoiceStyle(i, nesting, doubles).Ok?
    requires var y := p.ChoiceStyle(i, nesting, doubles).value; Matches(s, i, y.next, InsertList(y.items))
    ensures Mu(s, i) <= |q.msg|
    ensures q.ChoiceStyle(Mu(s, i), nesting, doubles) == Ok(MapPiece(s, p.ChoiceStyle(i, nesting, doubles).value))
    decreases |p.msg| - i, 4
  {
    hide Mu, MapItems, InsertList, Matches, Between, Quotes, Free, Same, Grammar.ChoiceHead, Grammar.Message;
    var y := p.ChoiceStyle(i, nesting, doubles).value;
    var head := p.ChoiceHead(i, doubles).value;
    var message := p.Message(head.next, 0, nesting + 1, CHOICE, head.doubles).value;
    var items := head.items + message.items;
    ChoiceHeadInserts(p, i, doubles);
    MessageInserts.MessageInserts(p, head.next, 0, nesting + 1, CHOICE, head.doubles);
    InsertListAppend(head.items, message.items);
    assert [] + InsertList(message.items) == InsertList(message.items);
    CharAt(p, q, s, message.next);
    MapAppend(s, head.items, message.items);
    if p.msg[message.next] == u_rightCurlyBrace {
      TripleSim(p, q, s, i, nesting, doubles);
    } else {
      var j := p.SkipWhiteSpace(message.next + 1);
      var rest := p.ChoiceStyle(j, nesting, message.doubles).value;
      ChoiceInserts(p, j, nesting, message.doubles);
      InsertListAppend(items, rest.items);
      BetweenWider(InsertList(message.items), head.next, message.next, i, message.next);
      BetweenWider(InsertList(rest.items), j, rest.next, message.next, rest.next);
      MatchesSplit(s, i, message.next, y.next, InsertList(message.items), InsertList(rest.items));
      MatchesNothing(s, message.next, j, y.next, InsertList(rest.items));
      TripleSim(p, q, s, i, nesting, doubles);
      MakeSame(p, q, s, message.next, j);
      SameAt(p, q, s, message.next, j, message.next + 1);
      SameSkipWhiteSpace(p, q, s, message.next, j, message.next + 1);
      ChoiceSim(p, q, s, j, nesting, message.doubles);
      MapAppend(s, items, rest.items);
    }
  }

  /** The number, the separator and the message of a choice. */
  lemma {:induction false} TripleSim(p: Grammar, q: Grammar, s: set<nat>, i: nat, nesting: nat, doubles: nat)
    requires Quotes(p, q, s) && i <= |p.msg| && p.ChoiceHead(i, doubles).Ok?
    requires var head := p.ChoiceHead(i, doubles).value; p.Message(head.next, 0, nesting + 1, CHOICE, head.doubles).Ok?
    requires var head := p.ChoiceHead(i, doubles).value;
      var message := p.Message(head.next, 0, nesting + 1, CHOICE, head.doubles).value;
      Matches(s, i, message.next, InsertList(message.items))
    ensures var head := p.ChoiceHead(i, doubles).value;
      && Mu(s, i) <= |q.msg| && Mu(s, head.next) <= |q.msg|
      && q.ChoiceHead(Mu(s, i), doubles) == Ok(MapPiece(s, head))
      && q.Message(Mu(s, head.next), 0, nesting + 1, CHOICE, head.doubles) ==
           Ok(MapPiece(s, p.Message(head.next, 0, nesting + 1, CHOICE, head.doubles).value))
    decreases |p.msg| - i, 3
  {
    hide Mu, MapItems, InsertList, Matches, Between, Quotes, Free, Same, Grammar.ChoiceHead, Grammar.Message;
    var head := p.ChoiceHead(i, doubles).value;
    var message := p.Message(head.next, 0, nesting + 1, CHOICE, head.doubles).value;
    MessageInserts.MessageInserts(p, head.next, 0, nesting + 1, CHOICE, head.doubles);
    MatchesNothing(s, i, head.next, message.next, InsertList(message.items));
    MakeSame(p, q, s, i, head.next);
    SameChoiceHead(p, q, s, i, head.next, i, doubles);
    MessageSim(p, q, s, head.next, 0, nesting + 1, CHOICE, head.doubles);
  }

  lemma {:induction false} PluralSim(p: Grammar, q: Grammar, s: set<nat>, argType: ArgType, i: nat, nesting: nat,
                                     isEmpty: bool, hasOther: bool, doubles: nat)
    requires Quotes(p, q, s) && i <= |p.msg| && p.PluralOrSelectStyle(argType, i, nesting, isEmpty, hasOther, doubles).Ok?
    requires var y := p.PluralOrSelectStyle(argType, i, nesting, isEmpty, hasOther, doubles).value;
      Matches(s, i, y.next, InsertList(y.items))
    ensures Mu(s, i) <= |q.msg|
    ensures q.PluralOrSelectStyle(argType, Mu(s, i), nesting, isEmpty, hasOther, doubles) ==
              Ok(MapPiece(s, p.PluralOrSelectStyle(argType, i, nesting, isEmpty, hasOther, doubles).value))
    decreases |p.msg| - i, 4
  {
    hide Mu, MapItems, InsertList, Matches, Between, Quotes, Free, Same;
    hide Grammar.Selector, Grammar.Message, Grammar.IsSelector, Grammar.IsOther;
    var j := p.SkipWhiteSpace(i);
    CharAt(p, q, s, i);
    if p.msg[j] == u_rightCurlyBrace {
      NothingInserted();
      NothingBetween(j, j);
      MatchesNothing(s, i, j, j, []);
      MakeSame(p, q, s, i, j);
      SameSkipWhiteSpace(p, q, s, i, j, i);
      SameAt(p, q, s, i, j, j);
      MapNothing(s);
    } else if !p.IsSelector(argType, j) {
      OffsetSim(p, q, s, argType, i, nesting, isEmpty, hasOther, doubles);
    } else {
      PairSim(p, q, s, argType, i, nesting, isEmpty, hasOther, doubles);
    }
  }

  lemma {:induction false} OffsetSim(p: Grammar, q: Grammar, s: set<nat>, argType: ArgType, i: nat, nesting: nat,
                                     isEmpty: bool, hasOther: bool, doubles: nat)
    requires Quotes(p, q, s) && i <= |p.msg| && p.PluralOrSelectStyle(argType, i, nesting, isEmpty, hasOther, doubles).Ok?
    requires var y := p.PluralOrSelectStyle(argType, i, nesting, isEmpty, hasOther, doubles).value;
      Matches(s, i, y.next, InsertList(y.items))
    requires var j := p.SkipWhiteSpace(i); p.msg[j] != u_rightCurlyBrace && !p.IsSelector(argType, j)
    ensures Mu(s, i) <= |q.msg|
    ensures q.PluralOrSelectStyle(argType, Mu(s, i), nesting, isEmpty, hasOther, doubles) ==
              Ok(MapPiece(s, p.PluralOrSelectStyle(argType, i, nesting, isEmpty, hasOther, doubles).value))
    decreases |p.msg| - i, 3
  {
    hide Mu, MapItems, InsertList, Matches, Between, Quotes, Free, Same;
    hide Grammar.Selector, Grammar.Message, Grammar.IsSelector, Grammar.IsOther;
    var y := p.PluralOrSelectStyle(argType, i, nesting, isEmpty, hasOther, doubles).value;
    var j := p.SkipWhiteSpace(i);
    var head := p.Selector(argType, j, isEmpty, doubles).value;
    var rest := p.PluralOrSelectStyle(argType, head.next, nesting, false, hasOther, head.doubles).value;
    SelectorInserts(p, argType, j, isEmpty, doubles);
    PluralInserts(p, argType, head.next, nesting, false, hasOther, head.doubles);
    InsertListAppend(head.items, rest.items);
    assert [] + InsertList(rest.items) == InsertList(rest.items);
    MatchesNothing(s, i, head.next, y.next, InsertList(rest.items));
    SelectorSim(p, q, s, argType, i, isEmpty, doubles);
    PluralSim(p, q, s, argType, head.next, nesting, false, hasOther, head.doubles);
    MapAppend(s, head.items, rest.items);
  }

  /** White space and a selector or an offset. */
  lemma SelectorSim(p: Grammar, q: Grammar, s: set<nat>, argType: ArgType, i: nat, isEmpty: bool, doubles: nat)
    requires Quotes(p, q, s) && i <= |p.msg| && p.SkipWhiteSpace(i) < |p.msg|
    requires var j := p.SkipWhiteSpace(i);
      && p.Selector(argType, j, isEmpty, doubles).Ok?
      && p.Selector(argType, j, isEmpty, doubles).value.next < |p.msg|
      && Free(s, i, p.Selector(argType, j, isEmpty, doubles).value.next)
    ensures var j := p.SkipWhiteSpace(i);
      && Mu(s, i) <= |q.msg| && q.SkipWhiteSpace(Mu(s, i)) == Mu(s, j) < |q.msg| && q.msg[Mu(s, j)] == p.msg[j]
      && q.Selector(argType, Mu(s, j), isEmpty, doubles) == Ok(MapPiece(s, p.Selector(argType, j, isEmpty, doubles).value))
      && q.IsSelector(argType, Mu(s, j)) == p.IsSelector(argType, j)
      && q.IsOther(argType, Mu(s, j)) == p.IsOther(argType, j)
  {
    hide Mu, MapItems, Quotes, Free, Same, Grammar.Selector, Grammar.IsSelector, Grammar.IsOther;
    var j := p.SkipWhiteSpace(i);
    var b := p.Selector(argType, j, isEmpty, doubles).value.next;
    MakeSame(p, q, s, i, b);
    SameAt(p, q, s, i, b, j);
    SameSkipWhiteSpace(p, q, s, i, b, i);
    SameSelector(p, q, s, i, b, argType, j, isEmpty, doubles);
  }

  lemma {:induction false} PairSim(p: Grammar, q: Grammar, s: set<nat>, argType: ArgType, i: nat, nesting: nat,
                                   isEmpty: bool, hasOther: bool, doubles: nat)
    requires Quotes(p, q, s) && i <= |p.msg| && p.PluralOrSelectStyle(argType, i, nesting, isEmpty, hasOther, doubles).Ok?
    requires var y := p.PluralOrSelectStyle(argType, i, nesting, isEmpty, hasOther, doubles).value;
      Matches(s, i, y.next, InsertList(y.items))
    requires var j := p.SkipWhiteSpace(i); p.msg[j] != u_rightCurlyBrace && p.IsSelector(argType, j)
    ensures Mu(s, i) <= |q.msg|
    ensures q.PluralOrSelectStyle(argType, Mu(s, i), nesting, isEmpty, hasOther, doubles) ==
              Ok(MapPiece(s, p.PluralOrSelectStyle(argType, i, nesting, isEmpty, hasOther, doubles).value))
    decreases |p.msg| - i, 3
  {
    hide Mu, MapItems, InsertList, Matches, Between, Quotes, Free, Same;
    hide Grammar.Selector, Grammar.Message, Grammar.IsSelector, Grammar.IsOther;
    var j := p.SkipWhiteSpace(i);
    var head := p.Selector(argType, j, isEmpty, doubles).value;
    var k := p.SkipWhiteSpace(head.next);
    var message := p.Message(k, 1, nesting + 1, argType, head.doubles).value;
    var other := hasOther || p.IsOther(argType, j);
    var rest := p.PluralOrSelectStyle(argType, message.next, nesting, false, other, message.doubles).value;
    PairMatches(p, s, argType, i, nesting, isEmpty, hasOther, doubles);
    SelectorSim(p, q, s, argType, i, isEmpty, doubles);
    MakeSame(p, q, s, i, k);
    SameAt(p, q, s, i, k, head.next);
    SameAt(p, q, s, i, k, k);
    SameSkipWhiteSpace(p, q, s, i, k, head.next);
    MessageSim(p, q, s, k, 1, nesting + 1, argType, head.doubles);
    PluralSim(p, q, s, argType, message.next, nesting, false, other, message.doubles);
    MapAppend(s, head.items, message.items);
    MapAppend(s, head.items + message.items, rest.items);
  }

  /** Where the insertions of a selector, its message and the rest of the style are. */
  lemma PairMatches(p: Grammar, s: set<nat>, argType: ArgType, i: nat, nesting: nat,
                    isEmpty: bool, hasOther: bool, doubles: nat)
    requires i <= |p.msg| && p.PluralOrSelectStyle(argType, i, nesting, isEmpty, hasOther, doubles).Ok?
    requires var y := p.PluralOrSelectStyle(argType, i, nesting, isEmpty, hasOther, doubles).value;
      Matches(s, i, y.next, InsertList(y.items))
    requires var j := p.SkipWhiteSpace(i); p.msg[j] != u_rightCurlyBrace && p.IsSelector(argType, j)
    ensures var j := p.SkipWhiteSpace(i); var head := p.Selector(argType, j, isEmpty, doubles).value;
      var k := p.SkipWhiteSpace(head.next);
      var message := p.Message(k, 1, nesting + 1, argType, head.doubles).value;
      var other := hasOther || p.IsOther(argType, j);
      var rest := p.PluralOrSelectStyle(argType, message.next, nesting, false, other, message.doubles).value;
      && Free(s, i, head.next) && Free(s, i, k)
      && Matches(s, k, message.next, InsertList(message.items))
      && Matches(s, message.next, rest.next, InsertList(rest.items))
  {
    hide Mu, MapItems, InsertList, Matches, Between, Quotes, Free, Same;
    hide Grammar.Selector, Grammar.Message, Grammar.IsSelector, Grammar.IsOther, Grammar.PluralOrSelectStyle;
    hide Grammar.SkipWhiteSpace;
    PairParts(p, argType, i, nesting, isEmpty, hasOther, doubles);
    var j := p.SkipWhiteSpace(i);
    var head := p.Selector(argType, j, isEmpty, doubles).value;
    var k := p.SkipWhiteSpace(head.next);
    var message := p.Message(k, 1, nesting + 1, argType, head.doubles).value;
    var other := hasOther || p.IsOther(argType, j);
    var rest := p.PluralOrSelectStyle(argType, message.next, nesting, false, other, message.doubles).value;
    SelectorInserts(p, argType, j, isEmpty, doubles);
    MessageInserts.MessageInserts(p, k, 1, nesting + 1, argType, head.doubles);
    PluralInserts(p, argType, message.next, nesting, false, other, message.doubles);
    InsertListAppend(head.items, message.items);
    InsertListAppend(head.items + message.items, rest.items);
    assert [] + InsertList(message.items) == InsertList(message.items);
    PairSplit(s, i, head.next, k, message.next, rest.next, InsertList(message.items), InsertList(rest.items));
  }

  /** A selector, its message and the rest of the style are the parts of a style. */
  lemma PairParts(p: Grammar, argType: ArgType, i: nat, nesting: nat, isEmpty: bool, hasOther: bool, doubles: nat)
    requires i <= |p.msg| && p.PluralOrSelectStyle(argType, i, nesting, isEmpty, hasOther, doubles).Ok?
    requires var j := p.SkipWhiteSpace(i); p.msg[j] != u_rightCurlyBrace && p.IsSelector(argType, j)
    ensures var j := p.SkipWhiteSpace(i); p.Selector(argType, j, isEmpty, doubles).Ok?
    ensures var j := p.SkipWhiteSpace(i); var head := p.Selector(argType, j, isEmpty, doubles).value;
      var k := p.SkipWhiteSpace(head.next);
      i <= head.next <= k < |p.msg| && p.Message(k, 1, nesting + 1, argType, head.doubles).Ok?
    ensures var j := p.SkipWhiteSpace(i); var head := p.Selector(argType, j, isEmpty, doubles).value;
      var k := p.SkipWhiteSpace(head.next);
      var message := p.Message(k, 1, nesting + 1, argType, head.doubles).value;
      var other := hasOther || p.IsOther(argType, j);
      var rest := p.PluralOrSelectStyle(argType, message.next, nesting, false, other, message.doubles);
      var y := p.PluralOrSelectStyle(argType, i, nesting, isEmpty, hasOther, doubles).value;
      rest.Ok? && y.next == rest.value.next && y.items == head.items + message.items + rest.value.items
  {
    hide Grammar.Selector, Grammar.Message, Grammar.IsSelector, Grammar.IsOther;
  }

  lemma PairSplit(s: set<nat>, i: nat, headNext: nat, k: nat, messageNext: nat, restNext: nat, x: seq<nat>, y: seq<nat>)
    requires i <= headNext <= k && k + 1 <= messageNext
    requires Matches(s, i, restNext, x + y)
    requires Between(x, k + 1, messageNext) && Between(y, messageNext, restNext)
    ensures Free(s, i, headNext) && Free(s, i, k)
    ensures Matches(s, k, messageNext, x) && Matches(s, messageNext, restNext, y)
  {
    hide Matches, Between, Free;
    BetweenWider(x, k + 1, messageNext, i, messageNext);
    MatchesSplit(s, i, messageNext, restNext, x, y);
    BetweenWider(x, k + 1, messageNext, k, messageNext);
    MatchesNothing(s, i, k, messageNext, x);
    FreeSooner(s, i, headNext, k);
  }

  lemma FreeSooner(s: set<nat>, lo: nat, middle: nat, hi: nat)
    requires Free(s, lo, hi) && middle <= hi
    ensures Free(s, lo, middle)
  {
  }

  function Elements(list: seq<nat>): set<nat> {
    set t | t in list
  }

  /** The positions where a pattern needs an apostrophe. */
  function Insertions(p: Grammar): set<nat>
    requires p.Pattern().Ok?
  {
    Elements(InsertList(p.Pattern().value.items))
  }

  /** A pattern with all missing apostrophes, in the same mode or in the mode where every apostrophe is doubled. */
  function AutoQuoted(p: Grammar, doubleRequired: bool): Grammar
    requires p.Pattern().Ok?
  {
    p.(msg := Inserted(p.msg, Insertions(p), |p.msg|), doubleRequired := doubleRequired)
  }

  /** The part at its new index; what was to be inserted is there, and to be skipped. */
  function MapPart(s: set<nat>, part: Part): Part {
    if part.kind == INSERT_CHAR then Part(SKIP_SYNTAX, if Mu(s, part.index) > 0 then Mu(s, part.index) - 1 else 0, 1, 0, part.limitPartIndex)
    else part.(index := Mu(s, part.index))
  }

  function MapParts(s: set<nat>, parts: seq<Part>): (r: seq<Part>)
    ensures |r| == |parts| && forall k :: 0 <= k < |r| ==> r[k] == MapPart(s, parts[k])
  {
    seq(|parts|, k requires 0 <= k < |parts| => MapPart(s, parts[k]))
  }

  lemma {:induction false} FlattenMapped(s: set<nat>, items: seq<Item>, base: nat)
    ensures Flatten(MapItems(s, items), base) == MapParts(s, Flatten(items, base))
    decreases items, 0
  {
    hide Mu;
    if items != [] {
      var first := FlattenItem(items[0], base);
      FlattenItemMapped(s, items[0], base);
      FlattenMapped(s, items[1..], base + |first|);
    }
  }

  lemma {:induction false} FlattenItemMapped(s: set<nat>, item: Item, base: nat)
    ensures FlattenItem(MapItem(s, item), base) == MapParts(s, FlattenItem(item, base))
    decreases item, 1
  {
    hide Mu;
    if item.Group? {
      FlattenMapped(s, item.items, base + 1);
    }
  }

  lemma {:induction false} MappedInserts(s: set<nat>, items: seq<Item>)
    ensures InsertList(MapItems(s, items)) == []
    decreases items, 0
  {
    if items != [] {
      MappedItemInserts(s, items[0]);
      MappedInserts(s, items[1..]);
    }
  }

  lemma {:induction false} MappedItemInserts(s: set<nat>, item: Item)
    ensures ItemInserts(MapItem(s, item)) == []
    decreases item, 1
  {
    if item.Group? {
      MappedInserts(s, item.items);
    }
  }

  lemma PatternSim(p: Grammar, q: Grammar, s: set<nat>)
    requires p.Pattern().Ok? && s == Insertions(p) && Quotes(p, q, s)
    ensures q.Pattern() == Ok(MapPiece(s, p.Pattern().value))
  {
    hide InsertList, Mu, MapItems, Quotes, Grammar.Message;
    var m := p.Pattern().value;
    var list := InsertList(m.items);
    MessageInserts.MessageInserts(p, 0, 0, 0, NONE, 0);
    assert Between(list, 0, m.next);
    AtStart(s, list, m.next);
    MessageSim(p, q, s, 0, 0, 0, NONE, 0);
  }

  lemma AtStart(s: set<nat>, list: seq<nat>, hi: nat)
    requires s == Elements(list) && Between(list, 0, hi)
    ensures Mu(s, 0) == 0 && Matches(s, 0, hi, list)
  {
  }

  /**
   Auto-quoting keeps the meaning: the quoted pattern has the same parts in both modes, at their new indexes,
   with every character to be inserted replaced by one to be skipped.
   */
  lemma AutoQuoteKeepsParts(p: Grammar, doubleRequired: bool)
    requires p.Pattern().Ok? && (p.doubleRequired ==> doubleRequired)
    ensures var q, s := AutoQuoted(p, doubleRequired), Insertions(p);
      && q.Pattern().Ok?
      && Flatten(q.Pattern().value.items, 0) == MapParts(s, Flatten(p.Pattern().value.items, 0))
  {
    hide InsertList, Mu, MapItems, Flatten, Inserted, Grammar.Message;
    var q, s := AutoQuoted(p, doubleRequired), Insertions(p);
    PatternSim(p, q, s);
    FlattenMapped(s, p.Pattern().value.items, 0);
  }

  lemma {:induction false} InsertedNothing(msg: seq<Unit>, n: nat)
    requires n <= |msg|
    ensures Inserted(msg, {}, n) == msg[..n]
  {
    if n > 0 {
      InsertedNothing(msg, n - 1);
    }
  }

  /** Auto-quoting an auto-quoted pattern changes nothing. */
  lemma AutoQuoteTwice(p: Grammar, doubleRequired: bool)
    requires p.Pattern().Ok? && (p.doubleRequired ==> doubleRequired)
    ensures var q := AutoQuoted(p, doubleRequired);
      q.Pattern().Ok? && Insertions(q) == {} && AutoQuoted(q, doubleRequired).msg == q.msg
  {
    hide InsertList, Mu, MapItems, Inserted, Grammar.Message;
    var q, s := AutoQuoted(p, doubleRequired), Insertions(p);
    PatternSim(p, q, s);
    MappedInserts(s, p.Pattern().value.items);
    InsertedNothing(q.msg, |q.msg|);
    assert q.msg[..|q.msg|] == q.msg;
  }

  /** The insertion positions in a list of parts. */
  function PartInserts(parts: seq<Part>): seq<nat> {
    if parts == [] then [] else PartInsert(parts[0]) + PartInserts(parts[1..])
  }

  function PartInsert(part: Part): seq<nat> {
    if part.kind == INSERT_CHAR then [part.index] else []
  }

  lemma {:induction false} PartInsertsAppend(a: seq<Part>, b: seq<Part>)
    ensures PartInserts(a + b) == PartInserts(a) + PartInserts(b)
  {
    hide PartInsert;
    if a == [] {
      assert a + b == b;
    } else {
      assert (a + b)[1..] == a[1..] + b && (a + b)[0] == a[0];
      PartInsertsAppend(a[1..], b);
    }
  }

  lemma {:induction false} FlattenInserts(items: seq<Item>, base: nat)
    ensures PartInserts(Flatten(items, base)) == InsertList(items)
    decreases items, 0
  {
    if items != [] {
      var first := FlattenItem(items[0], base);
      FlattenItemInserts(items[0], base);
      FlattenInserts(items[1..], base + |first|);
      PartInsertsAppend(first, Flatten(items[1..], base + |first|));
    }
  }

  lemma {:induction false} FlattenItemInserts(item: Item, base: nat)
    ensures PartInserts(FlattenItem(item, base)) == ItemInserts(item)
    decreases item, 1
  {
    match item
    case Leaf(kind, index, length, value) =>
      assert FlattenItem(item, base)[1..] == [];
    case Group(isMessage, index, length, value, items, limitIndex, limitLength) =>
      FlattenInserts(items, base + 1);
      hide Flatten;
      var inner := Flatten(items, base + 1);
      BracketInserts(Part(StartType(isMessage), index, length, value, base + 1 + |inner|), inner,
                     Part(LimitType(isMessage), limitIndex, limitLength, value, 0));
  }

  lemma BracketInserts(start: Part, inner: seq<Part>, limit: Part)
    requires start.kind != INSERT_CHAR && limit.kind != INSERT_CHAR
    ensures PartInserts([start] + inner + [limit]) == PartInserts(inner)
  {
    PartInsertsAppend([start] + inner, [limit]);
    assert ([start] + inner)[1..] == inner && [limit][1..] == [];
  }

  /** Inserting one more apostrophe in front of all others. */
  lemma {:induction false} InsertOne(msg: seq<Unit>, s: set<nat>, t: nat, n: nat)
    requires t <= n <= |msg| && forall u :: u in s ==> t < u
    ensures t <= Mu(s, n)
    ensures Inserted(msg, {t} + s, n) == Inserted(msg, s, n)[..t] + [u_apos] + Inserted(msg, s, n)[t..]
    decreases n
  {
    if n == t {
      NoneUpTo(msg, s, t);
      OnlyLast(msg, s, t);
    } else {
      InsertOne(msg, s, t, n - 1);
    }
  }

  lemma {:induction false} NoneUpTo(msg: seq<Unit>, s: set<nat>, n: nat)
    requires n <= |msg| && forall u :: u in s ==> n < u
    ensures Inserted(msg, s, n) == msg[..n]
  {
    if n > 0 {
      NoneUpTo(msg, s, n - 1);
    }
  }

  lemma OnlyLast(msg: seq<Unit>, s: set<nat>, t: nat)
    requires t <= |msg| && forall u :: u in s ==> t < u
    ensures Inserted(msg, {t} + s, t) == msg[..t] + [u_apos]
  {
    hide Inserted;
    InsertedLast(msg, {t} + s, t);
    if t > 0 {
      SameUpTo(msg, s, t, t - 1);
      NoneUpTo(msg, s, t - 1);
      assert msg[..t] == msg[..t - 1] + [msg[t - 1]];
    }
  }

  lemma InsertedLast(msg: seq<Unit>, s: set<nat>, t: nat)
    requires t <= |msg| && t in s
    ensures Inserted(msg, s, t) == (if t == 0 then [] else Inserted(msg, s, t - 1) + [msg[t - 1]]) + [u_apos]
  {
  }

  lemma {:induction false} SameUpTo(msg: seq<Unit>, s: set<nat>, t: nat, n: nat)
    requires n < t <= |msg|
    ensures Inserted(msg, {t} + s, n) == Inserted(msg, s, n)
  {
    if n > 0 {
      SameUpTo(msg, s, t, n - 1);
    }
  }

  /** One more part, from the end of the list. */
  lemma NextInsert(msg: seq<Unit>, parts: seq<Part>, i: nat, hi: nat)
    requires 0 < i <= |parts| && Between(PartInserts(parts), 0, hi) && hi <= |msg|
    ensures var s := Elements(PartInserts(parts[i..])); var s1 := Elements(PartInserts(parts[i - 1..]));
      if parts[i - 1].kind == INSERT_CHAR then
        var t, r := parts[i - 1].index, Inserted(msg, s, |msg|);
        t <= |r| && Inserted(msg, s1, |msg|) == r[..t] + [u_apos] + r[t..]
      else s1 == s
  {
    var rest := PartInserts(parts[i..]);
    assert parts[i - 1..][1..] == parts[i..];
    assert parts == parts[..i - 1] + parts[i - 1..];
    PartInsertsAppend(parts[..i - 1], parts[i - 1..]);
    if parts[i - 1].kind == INSERT_CHAR {
      var t := parts[i - 1].index;
      var list, n := PartInserts(parts), |PartInserts(parts[..i - 1])|;
      assert list[n] == t && forall k :: 0 <= k < |rest| ==> rest[k] == list[n + 1 + k];
      assert Elements([t] + rest) == {t} + Elements(rest);
      InsertOne(msg, Elements(rest), t, |msg|);
    }
  }
}
