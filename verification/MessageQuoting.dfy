/** Auto-quoting a printed tree: literal apostrophes are doubled, and quoted text is closed. */
module MessageQuoting {
  import opened Basics
  import opened Utf16
  import opened MessageParts
  import G = MessageGrammar
  import opened MessageInserts
  import A = AutoQuote
  import opened AutoQuoteMeaning
  import opened MessageSyntax
  import opened MessageSkips
  import opened MessageNumbers
  import opened MessageHeads
  import opened MessagePrinting

  /** The tree in which no apostrophe needs to be inserted. */
  function Doubling(nodes: seq<Node>): (r: seq<Node>)
    decreases nodes, 0
  {
    if nodes == [] then [] else [DoubledNode(nodes[0])] + Doubling(nodes[1..])
  }

  function DoubledNode(n: Node): Node
    decreases n, 1
  {
    match n
    case Literal => Doubled
    case Unclosed(texts) => Quoted(texts)
    case Argument(space, name, after, style) =>
      (match style
       case NoType => n
       case Typed(before, letters, gap, rest) => Argument(space, name, after, Typed(before, letters, gap, DoubledRest(rest))))
    case _ => n
  }

  function DoubledRest(rest: Rest): Rest
    decreases rest, 0
  {
    match rest
    case ChoiceStyle(choices) => ChoiceStyle(DoubledChoices(choices))
    case KeyedStyle(offset, cases, last) => KeyedStyle(offset, DoubledCases(cases), last)
    case _ => rest
  }

  function DoubledChoices(choices: seq<Choice>): (r: seq<Choice>)
    ensures |r| == |choices|
    decreases choices, 0
  {
    if choices == [] then [] else [DoubledChoice(choices[0])] + DoubledChoices(choices[1..])
  }

  function DoubledChoice(c: Choice): Choice
    decreases c, 1
  {
    c.(message := Doubling(c.message))
  }

  function DoubledCases(cases: seq<Case>): (r: seq<Case>)
    ensures |r| == |cases|
    decreases cases, 0
  {
    if cases == [] then [] else [DoubledCase(cases[0])] + DoubledCases(cases[1..])
  }

  function DoubledCase(c: Case): Case
    decreases c, 1
  {
    c.(message := Doubling(c.message))
  }

  /** The text from index i on, with an apostrophe at each position of the list. */
  function InsertAll(t: Text, i: nat, list: seq<nat>): Text {
    if t == [] then [] else [t[0]] + ((if i + 1 in list then [0x27] else []) + InsertAll(t[1..], i + 1, list))
  }

  ghost predicate Within(list: seq<nat>, lo: nat, hi: nat) {
    forall x :: x in list ==> lo < x <= hi
  }

  /** With the insertions for these items, the text t at index i becomes u. */
  ghost predicate Becomes(t: Text, i: nat, items: seq<Item>, u: Text) {
    Within(InsertList(items), i, i + |t|) && InsertAll(t, i, InsertList(items)) == u
  }

  /** Nothing depends on positions elsewhere. */
  lemma {:induction false} InsertSame(t: Text, i: nat, a: seq<nat>, b: seq<nat>)
    requires forall x :: i < x <= i + |t| ==> (x in a <==> x in b)
    ensures InsertAll(t, i, a) == InsertAll(t, i, b)
    decreases |t|
  {
    if t != [] {
      InsertSame(t[1..], i + 1, a, b);
    }
  }

  lemma {:induction false} InsertAppend(a: Text, b: Text, i: nat, list: seq<nat>)
    ensures InsertAll(a + b, i, list) == InsertAll(a, i, list) + InsertAll(b, i + |a|, list)
    decreases |a|
  {
    if a == [] {
      assert a + b == b;
    } else {
      assert (a + b)[1..] == a[1..] + b;
      InsertAppend(a[1..], b, i + 1, list);
    }
  }

  lemma BecomesAppend(a: Text, b: Text, i: nat, aItems: seq<Item>, bItems: seq<Item>, u: Text, v: Text)
    requires Becomes(a, i, aItems, u) && Becomes(b, i + |a|, bItems, v)
    ensures Becomes(a + b, i, aItems + bItems, u + v)
  {
    hide InsertList, InsertAll;
    var x, y := InsertList(aItems), InsertList(bItems);
    InsertListAppend(aItems, bItems);
    InsertAppend(a, b, i, x + y);
    InsertSame(a, i, x, x + y);
    InsertSame(b, i + |a|, y, x + y);
  }

  lemma {:induction false} BecomesItself(t: Text, i: nat)
    ensures Becomes(t, i, [], t)
    decreases |t|
  {
    if t != [] {
      BecomesItself(t[1..], i + 1);
      assert InsertList([]) == [];
    }
  }

  /** Text before and after does not change. */
  lemma BecomesAround(before: Text, t: Text, after: Text, i: nat, items: seq<Item>, u: Text)
    requires Becomes(t, i + |before|, items, u)
    ensures Becomes(before + (t + after), i, items, before + (u + after))
  {
    hide Becomes;
    BecomesItself(before, i);
    BecomesItself(after, i + |before| + |t|);
    BecomesAppend(t, after, i + |before|, items, [], u, after);
    assert items + [] == items && [] + items == items;
    BecomesAppend(before, t + after, i, [], items, before, u + after);
  }

  lemma BecomesLeaf(t: Text, i: nat, leaf: Item, items: seq<Item>, u: Text)
    requires Becomes(t, i, items, u) && leaf.Leaf? && leaf.kind != INSERT_CHAR
    ensures Becomes(t, i, [leaf] + items, u)
  {
    hide InsertAll;
    InsertListAppend([leaf], items);
    LeafNoInserts(leaf.kind, leaf.index, leaf.length, leaf.value);
    assert [] + InsertList(items) == InsertList(items);
  }

  lemma BecomesGroup(t: Text, i: nat, group: Item, u: Text)
    requires group.Group? && Becomes(t, i, group.items, u)
    ensures Becomes(t, i, [group], u)
  {
    hide InsertAll;
    InsertListOne(group);
  }

  lemma BecomesInsert(t: Text, i: nat, value: int)
    requires t != []
    ensures Becomes(t, i, [Leaf(INSERT_CHAR, i + |t|, 0, value)], t + [0x27])
  {
    hide InsertList, InsertAll;
    var list := [i + |t|];
    LeafNoInserts(INSERT_CHAR, i + |t|, 0, value);
    var a, b := t[..|t| - 1], t[|t| - 1..];
    assert a + b == t;
    InsertAppend(a, b, i, list);
    InsertSame(a, i, list, []);
    BecomesItself(a, i);
    NoItems();
    InsertOneUnit(b, i + |a|, list);
  }

  lemma InsertOneUnit(t: Text, i: nat, list: seq<nat>)
    requires |t| == 1 && i + 1 in list
    ensures InsertAll(t, i, list) == t + [0x27]
  {
    assert t[1..] == [];
  }

  lemma NoItems()
    ensures InsertList([]) == []
  {
  }

  lemma BecomesSame(t: Text, i: nat, a: seq<Item>, b: seq<Item>, u: Text)
    requires Becomes(t, i, a, u) && InsertList(a) == InsertList(b)
    ensures Becomes(t, i, b, u)
  {
  }

  // Trees.

  lemma {:induction false} PairsInsertNothing(texts: seq<Text>, i: nat)
    ensures InsertList(PairItems(texts, i)) == []
    decreases |texts|
  {
    if |texts| > 1 {
      var j := i + |texts[0]|;
      PairsInsertNothing(texts[1..], j + 2);
      InsertListAppend([Leaf(SKIP_SYNTAX, j + 1, 1, 0)], PairItems(texts[1..], j + 2));
      LeafNoInserts(SKIP_SYNTAX, j + 1, 1, 0);
    }
  }

  lemma QuoteInserts(texts: seq<Text>, i: nat, j: nat, last: Item)
    requires last.Leaf?
    ensures InsertList([Leaf(SKIP_SYNTAX, i, 1, 0)] + (PairItems(texts, j) + [last])) == InsertList([last])
  {
    hide InsertList;
    PairsInsertNothing(texts, j);
    InsertListAppend(PairItems(texts, j), [last]);
    InsertListAppend([Leaf(SKIP_SYNTAX, i, 1, 0)], PairItems(texts, j) + [last]);
    LeafNoInserts(SKIP_SYNTAX, i, 1, 0);
    assert [] + InsertList([last]) == InsertList([last]);
  }

  lemma {:induction false} NodesBecome(nodes: seq<Node>, i: nat, nesting: nat)
    ensures Becomes(Print(nodes), i, Items(nodes, i, nesting), Print(Doubling(nodes)))
    decreases nodes, 0
  {
    hide Becomes, PrintNode, NodeItems, DoubledNode;
    if nodes == [] {
      BecomesItself([], i);
    } else {
      var t := PrintNode(nodes[0]);
      NodeBecomes(nodes[0], i, nesting);
      NodesBecome(nodes[1..], i + |t|, nesting);
      BecomesAppend(t, Print(nodes[1..]), i, NodeItems(nodes[0], i, nesting), Items(nodes[1..], i + |t|, nesting),
                    PrintNode(DoubledNode(nodes[0])), Print(Doubling(nodes[1..])));
      DoublingFirst(nodes);
    }
  }

  lemma DoublingFirst(nodes: seq<Node>)
    requires nodes != []
    ensures Print(Doubling(nodes)) == PrintNode(DoubledNode(nodes[0])) + Print(Doubling(nodes[1..]))
  {
    hide PrintNode, DoubledNode;
    var d := Doubling(nodes);
    assert d[0] == DoubledNode(nodes[0]) && d[1..] == Doubling(nodes[1..]);
  }

  lemma {:induction false} NodeBecomes(n: Node, i: nat, nesting: nat)
    ensures Becomes(PrintNode(n), i, NodeItems(n, i, nesting), PrintNode(DoubledNode(n)))
    decreases n, 1
  {
    match n
    case Argument(space, name, after, style) => ArgumentBecomes(n, i, nesting);
    case _ => TextBecomes(n, i, nesting);
  }

  lemma TextBecomes(n: Node, i: nat, nesting: nat)
    requires !n.Argument?
    ensures Becomes(PrintNode(n), i, NodeItems(n, i, nesting), PrintNode(DoubledNode(n)))
  {
    hide Becomes, InsertList, PrintTexts, PairItems;
    var t := PrintNode(n);
    NoItems();
    BecomesItself(t, i);
    match n
    case Char(c) =>
    case Doubled =>
      LeafNoInserts(SKIP_SYNTAX, i + 1, 1, 0);
      BecomesSame(t, i, [], NodeItems(n, i, nesting), t);
    case Literal =>
      BecomesInsert(t, i, 0x27);
      assert t + [0x27] == [0x27, 0x27];
    case Quoted(texts) =>
      var e := i + 1 + |PrintTexts(texts)|;
      QuoteInserts(texts, i, i + 1, Leaf(SKIP_SYNTAX, e, 1, 0));
      LeafNoInserts(SKIP_SYNTAX, e, 1, 0);
      BecomesSame(t, i, [], NodeItems(n, i, nesting), t);
    case Unclosed(texts) =>
      var last := Leaf(INSERT_CHAR, i + 1 + |PrintTexts(texts)|, 0, 0x27);
      QuoteInserts(texts, i, i + 1, last);
      BecomesInsert(t, i, 0x27);
      assert t + [0x27] == [0x27] + (PrintTexts(texts) + [0x27]);
      BecomesSame(t, i, [last], NodeItems(n, i, nesting), t + [0x27]);
    case NumberSign =>
      LeafNoInserts(REPLACE_NUMBER, i, 1, 0);
      BecomesSame(t, i, [], NodeItems(n, i, nesting), t);
  }

  lemma {:induction false} ArgumentBecomes(n: Node, i: nat, nesting: nat)
    requires n.Argument?
    ensures Becomes(PrintNode(n), i, NodeItems(n, i, nesting), PrintNode(DoubledNode(n)))
    decreases n, 0
  {
    hide Becomes, InsertList, PrintName, PrintRest, RestItems, DoubledRest, TypeNumber;
    var style := n.style;
    var head := [0x7b] + (n.space + (PrintName(n.name) + n.after));
    var k := i + |head|;
    var t, items := PrintStyle(style), StyleItems(style, k, nesting);
    var u := PrintStyle(DoubledNode(n).style);
    if style.Typed? {
      StyleBecomes(style, k, nesting);
    } else {
      BecomesItself([], k);
    }
    BecomesAround(head, t, [0x7d], i, items, u);
    NameLeaf(n.name, i + 1 + |n.space|);
    BecomesLeaf(head + (t + [0x7d]), i, NameItem(n.name, i + 1 + |n.space|), items, head + (u + [0x7d]));
    BecomesGroup(head + (t + [0x7d]), i, NodeItems(n, i, nesting)[0], head + (u + [0x7d]));
    ArgumentText(n.space, n.name, n.after, style);
    ArgumentText(n.space, n.name, n.after, DoubledNode(n).style);
  }

  lemma ArgumentText(space: Text, name: Name, after: Text, style: Style)
    ensures PrintNode(Argument(space, name, after, style)) ==
      ([0x7b] + (space + (PrintName(name) + after))) + (PrintStyle(style) + [0x7d])
  {
    hide PrintName, PrintStyle;
  }

  lemma NameLeaf(name: Name, i: nat)
    ensures NameItem(name, i).Leaf? && NameItem(name, i).kind != INSERT_CHAR
  {
  }

  lemma {:induction false} StyleBecomes(style: Style, i: nat, nesting: nat)
    requires style.Typed?
    ensures Becomes(PrintStyle(style), i, StyleItems(style, i, nesting), PrintStyle(style.(rest := DoubledRest(style.rest))))
    decreases style, 0
  {
    hide Becomes, InsertList, PrintRest, RestItems, DoubledRest, TypeNumber;
    var head := [0x2c] + (style.before + (style.letters + style.after));
    var rest, k := style.rest, i + |head|;
    var t, u, items := PrintRest(rest), PrintRest(DoubledRest(rest)), RestItems(rest, k, nesting);
    RestBecomes(rest, k, nesting);
    BecomesAround(head, t, [], i, items, u);
    assert PrintStyle(style) == head + (t + []) && PrintStyle(style.(rest := DoubledRest(rest))) == head + (u + []);
    if TypeNumber(style.letters) == 1 {
      BecomesLeaf(head + (t + []), i, Leaf(ARG_TYPE, i + 1 + |style.before|, |style.letters|, 0), items, head + (u + []));
    } else {
      assert [] + items == items;
    }
  }

  lemma {:induction false} RestBecomes(rest: Rest, i: nat, nesting: nat)
    ensures Becomes(PrintRest(rest), i, RestItems(rest, i, nesting), PrintRest(DoubledRest(rest)))
    decreases rest, 0
  {
    hide Becomes, InsertList, PrintPieces, PrintChoices, PrintCases, ChoiceItems, CaseItems, OffsetItems, PrintOffset,
         DoubledChoices, DoubledCases;
    match rest
    case NoStyle => BecomesItself([], i);
    case SimpleStyle(pieces) =>
      var t := PrintRest(rest);
      BecomesItself(t, i);
      BecomesLeaf(t, i, Leaf(ARG_STYLE, i + 1, |PrintPieces(pieces)|, 0), [], t);
      assert [Leaf(ARG_STYLE, i + 1, |PrintPieces(pieces)|, 0)] + [] == RestItems(rest, i, nesting);
    case ChoiceStyle(choices) =>
      var t, u := PrintChoices(choices), PrintChoices(DoubledChoices(choices));
      ChoicesBecome(choices, i + 1, nesting);
      BecomesAround([0x2c], t, [], i, ChoiceItems(choices, i + 1, nesting), u);
      assert t + [] == t && u + [] == u;
    case KeyedStyle(offset, cases, last) =>
      var o, t, u := PrintOffset(offset), PrintCases(cases), PrintCases(DoubledCases(cases));
      var k := i + 1 + |o|;
      CasesBecome(cases, k, nesting);
      var items := CaseItems(cases, k, nesting);
      BecomesAround([0x2c] + o, t, last, i, items, u);
      OffsetLeaf(offset, i + 1, ([0x2c] + o) + (t + last), i, items, ([0x2c] + o) + (u + last));
      assert [0x2c] + (o + (t + last)) == ([0x2c] + o) + (t + last);
      assert [0x2c] + (o + (u + last)) == ([0x2c] + o) + (u + last);
  }

  lemma OffsetLeaf(offset: Offset, k: nat, t: Text, i: nat, items: seq<Item>, u: Text)
    requires Becomes(t, i, items, u)
    ensures Becomes(t, i, OffsetItems(offset, k) + items, u)
  {
    hide Becomes;
    match offset
    case NoOffset => assert [] + items == items;
    case Offset(_, _, _) => BecomesLeaf(t, i, OffsetItems(offset, k)[0], items, u);
  }

  lemma {:induction false} ChoicesBecome(choices: seq<Choice>, i: nat, nesting: nat)
    ensures Becomes(PrintChoices(choices), i, ChoiceItems(choices, i, nesting), PrintChoices(DoubledChoices(choices)))
    decreases choices, 0
  {
    hide Becomes, PrintChoice, OneChoice, DoubledChoice;
    if choices == [] {
      BecomesItself([], i);
    } else {
      var c := choices[0];
      var t, u := PrintChoice(c), PrintChoice(DoubledChoice(c));
      var limitLength := if |choices| == 1 then 0 else 1;
      ChoiceBecomes(c, i, nesting, limitLength);
      var d := DoubledChoices(choices);
      assert d[0] == DoubledChoice(c) && d[1..] == DoubledChoices(choices[1..]);
      if |choices| == 1 {
        assert OneChoice(c, i, nesting, 0) + [] == OneChoice(c, i, nesting, 0);
      } else {
        var rest := choices[1..];
        var k := i + |t| + 1;
        ChoicesBecome(rest, k, nesting);
        var v, w, items := PrintChoices(rest), PrintChoices(DoubledChoices(rest)), ChoiceItems(rest, k, nesting);
        BecomesAround([0x7c], v, [], k - 1, items, w);
        assert v + [] == v && w + [] == w;
        BecomesAppend(t, [0x7c] + v, i, OneChoice(c, i, nesting, 1), items, u, [0x7c] + w);
      }
    }
  }

  lemma {:induction false} ChoiceBecomes(c: Choice, i: nat, nesting: nat, limitLength: nat)
    ensures Becomes(PrintChoice(c), i, OneChoice(c, i, nesting, limitLength), PrintChoice(DoubledChoice(c)))
    decreases c, 1
  {
    hide Becomes, Print, Items, Doubling, Numeral.Print, Numeral.Value;
    var number := c.number.Print();
    var head := c.before + (number + (c.after + [c.separator]));
    var t, u, k := Print(c.message), Print(Doubling(c.message)), i + |head|;
    NodesBecome(c.message, k, nesting + 1);
    BecomesAround(head, t, [], i, Items(c.message, k, nesting + 1), u);
    var all, v := head + (t + []), head + (u + []);
    assert PrintChoice(c) == all && PrintChoice(DoubledChoice(c)) == v;
    var items := OneChoice(c, i, nesting, limitLength);
    BecomesGroup(all, i, items[2], v);
    BecomesLeaf(all, i, items[1], [items[2]], v);
    BecomesLeaf(all, i, items[0], [items[1]] + [items[2]], v);
    assert [items[0]] + ([items[1]] + [items[2]]) == items;
  }

  lemma {:induction false} CasesBecome(cases: seq<Case>, i: nat, nesting: nat)
    ensures Becomes(PrintCases(cases), i, CaseItems(cases, i, nesting), PrintCases(DoubledCases(cases)))
    decreases cases, 0
  {
    hide Becomes, PrintCase, OneCase, DoubledCase;
    if cases == [] {
      BecomesItself([], i);
    } else {
      var c := cases[0];
      var t, u := PrintCase(c), PrintCase(DoubledCase(c));
      CaseBecomes(c, i, nesting);
      var d := DoubledCases(cases);
      assert d[0] == DoubledCase(c) && d[1..] == DoubledCases(cases[1..]);
      CasesBecome(cases[1..], i + |t|, nesting);
      BecomesAppend(t, PrintCases(cases[1..]), i, OneCase(c, i, nesting), CaseItems(cases[1..], i + |t|, nesting),
                    u, PrintCases(DoubledCases(cases[1..])));
    }
  }

  lemma {:induction false} CaseBecomes(c: Case, i: nat, nesting: nat)
    ensures Becomes(PrintCase(c), i, OneCase(c, i, nesting), PrintCase(DoubledCase(c)))
    decreases c, 1
  {
    hide Becomes, Print, Items, Doubling, PrintKey, KeyItems;
    var key := PrintKey(c.key);
    var head := c.before + (key + (c.after + [0x7b]));
    var t, u, k := Print(c.message), Print(Doubling(c.message)), i + |head|;
    NodesBecome(c.message, k, nesting + 1);
    BecomesAround(head, t, [0x7d], i, Items(c.message, k, nesting + 1), u);
    var all, v := head + (t + [0x7d]), head + (u + [0x7d]);
    CaseText(c);
    CaseText(DoubledCase(c));
    CaseOf(c, i, nesting);
    var message := Group(true, k - 1, 1, nesting + 1, Items(c.message, k, nesting + 1), k + |t|, 1);
    BecomesGroup(all, i, message, v);
    KeyLeaves(c.key, i + |c.before|, all, i, [message], v);
  }

  lemma CaseText(c: Case)
    ensures PrintCase(c) == (c.before + (PrintKey(c.key) + (c.after + [0x7b]))) + (Print(c.message) + [0x7d])
  {
    hide Print, PrintKey;
  }

  lemma KeyLeaves(key: Key, k: nat, t: Text, i: nat, items: seq<Item>, u: Text)
    requires Becomes(t, i, items, u)
    ensures Becomes(t, i, KeyItems(key, k) + items, u)
  {
    hide Becomes, Numeral.Print, Numeral.Value;
    var leaves := KeyItems(key, k);
    match key
    case Keyword(word) => BecomesLeaf(t, i, leaves[0], items, u);
    case Exactly(number) =>
      BecomesLeaf(t, i, leaves[1], items, u);
      BecomesLeaf(t, i, leaves[0], [leaves[1]] + items, u);
      assert [leaves[0]] + ([leaves[1]] + items) == leaves + items;
  }

  // Patterns.

  lemma {:induction false} InsertedIsAll(msg: Text, n: nat, list: seq<nat>)
    requires n <= |msg| && 0 !in list
    ensures A.Inserted(msg, Elements(list), n) == InsertAll(msg[..n], 0, list)
    decreases n
  {
    if n > 0 {
      InsertedIsAll(msg, n - 1, list);
      var a, b := msg[..n - 1], [msg[n - 1]];
      assert msg[..n] == a + b;
      InsertAppend(a, b, 0, list);
    }
  }

  /** Auto-quoting a printed tree doubles the literal apostrophes and closes the quoted text, at every depth. */
  lemma AutoQuotedTree(g: Grammar, nodes: seq<Node>, doubleRequired: bool)
    requires SettingOf(g).Usual() && SettingOf(g).Valid(nodes, 0, 0, []) && g.msg == Print(nodes)
    ensures g.Pattern().Ok? && AutoQuoted(g, doubleRequired).msg == Print(Doubling(nodes))
  {
    hide Setting.Usual, Setting.Valid, Print, Items, Grammar.Message, InsertList, InsertAll, A.Inserted;
    PatternParses(g, nodes);
    NodesBecome(nodes, 0, 0);
    BecomesGroup(g.msg, 0, PatternItems(nodes)[0], Print(Doubling(nodes)));
    InsertedIsAll(g.msg, |g.msg|, InsertList(PatternItems(nodes)));
    assert g.msg[..|g.msg|] == g.msg;
  }
}
