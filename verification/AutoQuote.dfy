/** Inserting the missing apostrophes keeps the meaning of a pattern. */
module AutoQuote {
  import opened Utf16
  import opened MessageParts
  import opened MessageGrammar
  import opened MessageShape
  import opened MessageInserts

  /** Where the character at i is after inserting a character at each position of s. */
  function Mu(s: set<nat>, i: nat): (m: nat)
    ensures m >= i
  {
    (if i in s then 1 else 0) + if i == 0 then 0 else Mu(s, i - 1) + 1
  }

  /** Where the text after position i starts, with the character which is inserted at i. */
  function Before(s: set<nat>, i: nat): (m: nat)
    ensures m >= i
  {
    if i == 0 then 0 else Mu(s, i - 1) + 1
  }

  /** The first n characters, with an apostrophe at each position of s up to n. */
  function Inserted(msg: seq<Unit>, s: set<nat>, n: nat): (r: seq<Unit>)
    requires n <= |msg|
    ensures |r| == Mu(s, n)
  {
    (if n == 0 then [] else Inserted(msg, s, n - 1) + [msg[n - 1]]) + if n in s then [u_apos] else []
  }

  lemma {:induction false} InsertedAt(msg: seq<Unit>, s: set<nat>, i: nat, n: nat)
    requires i <= n <= |msg|
    ensures Mu(s, i) <= Mu(s, n) && (i < n ==> Mu(s, i) < Mu(s, n))
    ensures i < n ==> Inserted(msg, s, n)[Mu(s, i)] == msg[i]
    ensures i in s ==> Mu(s, i) > 0 && Inserted(msg, s, n)[Mu(s, i) - 1] == u_apos
    decreases n
  {
    if i < n {
      InsertedAt(msg, s, i, n - 1);
    }
  }

  /** No insertion after from and up to to. */
  ghost predicate Free(s: set<nat>, from: nat, to: nat) {
    forall p :: from < p <= to ==> p !in s
  }

  lemma {:induction false} FreeShift(s: set<nat>, from: nat, t: nat)
    requires from <= t && Free(s, from, t)
    ensures Mu(s, t) == Mu(s, from) + (t - from)
    decreases t
  {
    if from < t {
      FreeShift(s, from, t - 1);
    }
  }

  /** A pattern, and the same pattern with insertions, possibly in the mode in which all apostrophes are doubled. */
  ghost predicate Quotes(p: Grammar, q: Grammar, s: set<nat>) {
    && q.msg == Inserted(p.msg, s, |p.msg|)
    && q.whiteSpace == p.whiteSpace && q.syntaxOrWhiteSpace == p.syntaxOrWhiteSpace
    && q.parsesAsDouble == p.parsesAsDouble && (p.doubleRequired ==> q.doubleRequired)
  }

  /** From a to b, both included, the patterns are the same, apart from where they start. */
  ghost predicate Same(p: Grammar, q: Grammar, s: set<nat>, a: nat, b: nat) {
    && a <= b < |p.msg|
    && q.whiteSpace == p.whiteSpace && q.syntaxOrWhiteSpace == p.syntaxOrWhiteSpace && q.parsesAsDouble == p.parsesAsDouble
    && forall t: nat :: a <= t <= b ==>
         Mu(s, t) == Mu(s, a) + (t - a) && Mu(s, t) < |q.msg| && q.msg[Mu(s, t)] == p.msg[t]
  }

  lemma MakeSame(p: Grammar, q: Grammar, s: set<nat>, a: nat, b: nat)
    requires Quotes(p, q, s) && a <= b < |p.msg| && Free(s, a, b)
    ensures Same(p, q, s, a, b)
  {
    forall t: nat | a <= t <= b
      ensures Mu(s, t) == Mu(s, a) + (t - a) && Mu(s, t) < |q.msg| && q.msg[Mu(s, t)] == p.msg[t]
    {
      FreeShift(s, a, t);
      InsertedAt(p.msg, s, t, |p.msg|);
    }
  }

  lemma SameSlice(p: Grammar, q: Grammar, s: set<nat>, a: nat, b: nat, i: nat, j: nat)
    requires Same(p, q, s, a, b) && a <= i <= j <= b
    ensures Mu(s, i) <= Mu(s, j) <= |q.msg| && q.msg[Mu(s, i)..Mu(s, j)] == p.msg[i..j]
    ensures Mu(s, j) - Mu(s, i) == j - i
  {
    forall t | 0 <= t < j - i
      ensures q.msg[Mu(s, i)..Mu(s, j)][t] == p.msg[i..j][t]
    {
      assert q.msg[Mu(s, i + t)] == p.msg[i + t];
    }
  }

  lemma {:induction false} SameSkipWhiteSpace(p: Grammar, q: Grammar, s: set<nat>, a: nat, b: nat, i: nat)
    requires Same(p, q, s, a, b) && a <= i <= b && p.SkipWhiteSpace(i) <= b
    ensures Mu(s, i) <= |q.msg| && q.SkipWhiteSpace(Mu(s, i)) == Mu(s, p.SkipWhiteSpace(i))
    decreases b - i
  {
    if p.msg[i] in p.whiteSpace {
      SameSkipWhiteSpace(p, q, s, a, b, i + 1);
    }
  }

  lemma {:induction false} SameSkipIdentifier(p: Grammar, q: Grammar, s: set<nat>, a: nat, b: nat, i: nat)
    requires Same(p, q, s, a, b) && a <= i <= b && p.SkipIdentifier(i) <= b
    ensures Mu(s, i) <= |q.msg| && q.SkipIdentifier(Mu(s, i)) == Mu(s, p.SkipIdentifier(i))
    decreases b - i
  {
    if p.msg[i] !in p.syntaxOrWhiteSpace {
      SameSkipIdentifier(p, q, s, a, b, i + 1);
    }
  }

  lemma {:induction false} SameSkipDouble(p: Grammar, q: Grammar, s: set<nat>, a: nat, b: nat, i: nat)
    requires Same(p, q, s, a, b) && a <= i <= b && p.SkipDouble(i) <= b
    ensures Mu(s, i) <= |q.msg| && q.SkipDouble(Mu(s, i)) == Mu(s, p.SkipDouble(i))
    decreases b - i
  {
    if IsDoubleChar(p.msg[i]) {
      SameSkipDouble(p, q, s, a, b, i + 1);
    }
  }

  lemma {:induction false} SameSkipArgType(p: Grammar, q: Grammar, s: set<nat>, a: nat, b: nat, i: nat)
    requires Same(p, q, s, a, b) && a <= i <= b && p.SkipArgType(i) <= b
    ensures Mu(s, i) <= |q.msg| && q.SkipArgType(Mu(s, i)) == Mu(s, p.SkipArgType(i))
    decreases b - i
  {
    if IsArgTypeChar(p.msg[i]) {
      SameSkipArgType(p, q, s, a, b, i + 1);
    }
  }

  lemma {:induction false} SameIndexOf(p: Grammar, q: Grammar, s: set<nat>, a: nat, b: nat, i: nat)
    requires Same(p, q, s, a, b) && a <= i <= b && p.IndexOf(u_apos, i) <= b
    ensures Mu(s, i) <= |q.msg| && q.IndexOf(u_apos, Mu(s, i)) == Mu(s, p.IndexOf(u_apos, i))
    decreases b - i
  {
    if p.msg[i] != u_apos {
      SameIndexOf(p, q, s, a, b, i + 1);
    }
  }

  lemma {:induction false} SameSimpleStyle(p: Grammar, q: Grammar, s: set<nat>, a: nat, b: nat, i: nat, start: nat, nested: nat)
    requires Same(p, q, s, a, b) && a <= start <= i <= b && p.SimpleStyle(i, start, nested) == Ok(b)
    ensures Mu(s, start) <= Mu(s, i) <= |q.msg| && q.SimpleStyle(Mu(s, i), Mu(s, start), nested) == Ok(Mu(s, b))
    decreases b - i
  {
    hide Mu, Same, Grammar.IndexOf, Grammar.SimpleStyle;
    SameAt(p, q, s, a, b, i);
    SameAt(p, q, s, a, b, start);
    SimpleStep(p, i, start, nested);
    SimpleStep(q, Mu(s, i), Mu(s, start), nested);
    if p.msg[i] == u_apos {
      var k := p.IndexOf(u_apos, i + 1);
      SimpleEnd(p, k + 1, start, nested);
      SameAt(p, q, s, a, b, i + 1);
      SameAt(p, q, s, a, b, k + 1);
      SameAt(p, q, s, a, b, k);
      SameIndexOf(p, q, s, a, b, i + 1);
      SameSimpleStyle(p, q, s, a, b, k + 1, start, nested);
    } else if i < b {
      SameAt(p, q, s, a, b, i + 1);
      if p.msg[i] == u_leftCurlyBrace {
        SameSimpleStyle(p, q, s, a, b, i + 1, start, nested + 1);
      } else if p.msg[i] == u_rightCurlyBrace {
        SameSimpleStyle(p, q, s, a, b, i + 1, start, nested - 1);
      } else {
        SameSimpleStyle(p, q, s, a, b, i + 1, start, nested);
      }
    }
  }

  lemma SimpleEnd(p: Grammar, i: nat, start: nat, nested: nat)
    requires start <= i <= |p.msg|
    ensures p.SimpleStyle(i, start, nested).Ok? ==> i <= p.SimpleStyle(i, start, nested).value < |p.msg|
  {
  }

  lemma SameAt(p: Grammar, q: Grammar, s: set<nat>, a: nat, b: nat, t: nat)
    requires Same(p, q, s, a, b) && a <= t <= b
    ensures b < |p.msg|
    ensures Mu(s, t) == Mu(s, a) + (t - a) && Mu(s, t) < |q.msg| && q.msg[Mu(s, t)] == p.msg[t]
  {
  }

  /** The item at its new index; what was to be inserted is there, and to be skipped. */
  function MapItem(s: set<nat>, item: Item): Item
    decreases item, 1
  {
    match item
    case Leaf(kind, index, length, value) =>
      if kind == INSERT_CHAR then Leaf(SKIP_SYNTAX, if Mu(s, index) > 0 then Mu(s, index) - 1 else 0, 1, 0)
      else Leaf(kind, Mu(s, index), length, value)
    case Group(isMessage, index, length, value, items, limitIndex, limitLength) =>
      Group(isMessage, Mu(s, index), length, value, MapItems(s, items), Mu(s, limitIndex), limitLength)
  }

  function MapItems(s: set<nat>, items: seq<Item>): (r: seq<Item>)
    ensures |r| == |items|
    decreases items, 0
  {
    if items == [] then [] else [MapItem(s, items[0])] + MapItems(s, items[1..])
  }

  lemma {:induction false} MapAppend(s: set<nat>, x: seq<Item>, y: seq<Item>)
    ensures MapItems(s, x + y) == MapItems(s, x) + MapItems(s, y)
  {
    if x == [] {
      assert x + y == y;
    } else {
      assert (x + y)[1..] == x[1..] + y;
      MapAppend(s, x[1..], y);
    }
  }

  lemma MapOne(s: set<nat>, item: Item)
    ensures MapItems(s, [item]) == [MapItem(s, item)]
  {
    assert [item][1..] == [];
  }

  lemma MapLeaf(s: set<nat>, kind: PartType, index: nat, length: nat, value: int)
    ensures kind != INSERT_CHAR ==> MapItems(s, [Leaf(kind, index, length, value)]) == [Leaf(kind, Mu(s, index), length, value)]
    ensures kind == INSERT_CHAR && Mu(s, index) > 0 ==>
              MapItems(s, [Leaf(kind, index, length, value)]) == [Leaf(SKIP_SYNTAX, Mu(s, index) - 1, 1, 0)]
  {
    MapOne(s, Leaf(kind, index, length, value));
  }

  function MapPiece(s: set<nat>, piece: Piece): Piece {
    Piece(MapItems(s, piece.items), Mu(s, piece.next), piece.doubles)
  }

  lemma SameArgName(p: Grammar, q: Grammar, s: set<nat>, a: nat, b: nat, i: nat)
    requires Same(p, q, s, a, b) && a <= i <= b && p.ArgName(i).Ok? && p.ArgName(i).value.next <= b
    ensures Mu(s, i) <= |q.msg| && q.ArgName(Mu(s, i)) == Ok(MapPiece(s, p.ArgName(i).value).(doubles := 0))
  {
    hide Mu, MapItems, Same, ArgNumber, Grammar.SkipIdentifier;
    SameAt(p, q, s, a, b, i);
    SameSkipIdentifier(p, q, s, a, b, i);
    SameSlice(p, q, s, a, b, i, p.SkipIdentifier(i));
    var leaf := p.ArgName(i).value.items[0];
    assert p.ArgName(i).value.items == [leaf];
    MapLeaf(s, leaf.kind, leaf.index, leaf.length, leaf.value);
  }

  lemma SameArgTypeName(p: Grammar, q: Grammar, s: set<nat>, a: nat, b: nat, items: seq<Item>, i: nat)
    requires Same(p, q, s, a, b) && a <= i <= b && p.ArgTypeName(items, i).Ok? && p.ArgTypeName(items, i).value.next <= b
    ensures var head := p.ArgTypeName(items, i).value;
      && Mu(s, i) <= |q.msg|
      && q.ArgTypeName(MapItems(s, items), Mu(s, i)) ==
           Ok(Head(MapItems(s, head.items), head.argType, head.comma, Mu(s, head.next)))
  {
    hide Mu, MapItems, Same, TypeHead, Grammar.ArgTypeName;
    ArgTypeNameIs(p, items, i);
    SameAt(p, q, s, a, b, i);
    ArgTypeNameIs(q, MapItems(s, items), Mu(s, i));
    var typeIndex := p.SkipWhiteSpace(i);
    var j := p.SkipArgType(typeIndex);
    var k := p.SkipWhiteSpace(j);
    TypeHeadNext(p, items, typeIndex, j, k);
    SameSkipWhiteSpace(p, q, s, a, b, i);
    SameSkipArgType(p, q, s, a, b, typeIndex);
    SameSkipWhiteSpace(p, q, s, a, b, j);
    SameAt(p, q, s, a, b, k);
    SameTypeHead(p, q, s, a, b, items, typeIndex, j, k);
  }

  /** The type name from typeIndex to j, and the character at k after it. */
  function TypeHead(g: Grammar, items: seq<Item>, typeIndex: nat, j: nat, k: nat): Outcome<Head>
    requires typeIndex <= j <= k < |g.msg|
  {
    if j == typeIndex || (g.msg[k] != u_comma && g.msg[k] != u_rightCurlyBrace) then Fail(PATTERN_SYNTAX)
    else if j - typeIndex > MAX_LENGTH then Fail(INDEX_OUTOFBOUNDS)
    else
      var argType := TypeOf(g.msg[typeIndex..j]);
      var all := if argType == SIMPLE then items + [Leaf(ARG_TYPE, typeIndex, j - typeIndex, 0)] else items;
      if g.msg[k] == u_comma then Ok(Head(all, argType, true, k + 1))
      else if argType != SIMPLE then Fail(PATTERN_SYNTAX)
      else Ok(Head(all, argType, false, k))
  }

  lemma ArgTypeNameIs(g: Grammar, items: seq<Item>, i: nat)
    requires i <= |g.msg|
    ensures var typeIndex := g.SkipWhiteSpace(i); var j := g.SkipArgType(typeIndex); var k := g.SkipWhiteSpace(j);
      g.ArgTypeName(items, i) == if k == |g.msg| then Fail(UNMATCHED_BRACES) else TypeHead(g, items, typeIndex, j, k)
  {
    hide TypeOf;
  }

  lemma TypeHeadNext(g: Grammar, items: seq<Item>, typeIndex: nat, j: nat, k: nat)
    requires typeIndex <= j <= k < |g.msg| && TypeHead(g, items, typeIndex, j, k).Ok?
    ensures k <= TypeHead(g, items, typeIndex, j, k).value.next
  {
    hide TypeOf;
  }

  lemma SameTypeHead(p: Grammar, q: Grammar, s: set<nat>, a: nat, b: nat, items: seq<Item>, typeIndex: nat, j: nat, k: nat)
    requires Same(p, q, s, a, b) && a <= typeIndex <= j <= k <= b < |p.msg|
    requires TypeHead(p, items, typeIndex, j, k).Ok? && TypeHead(p, items, typeIndex, j, k).value.next <= b
    ensures var head := TypeHead(p, items, typeIndex, j, k).value;
      && Mu(s, typeIndex) <= Mu(s, j) <= Mu(s, k) < |q.msg|
      && TypeHead(q, MapItems(s, items), Mu(s, typeIndex), Mu(s, j), Mu(s, k)) ==
           Ok(Head(MapItems(s, head.items), head.argType, head.comma, Mu(s, head.next)))
  {
    hide Mu, MapItems, Same, TypeOf, Grammar.SkipWhiteSpace;
    SameSlice(p, q, s, a, b, typeIndex, j);
    SameSlice(p, q, s, a, b, j, k);
    SameAt(p, q, s, a, b, k);
    MapLeaf(s, ARG_TYPE, typeIndex, j - typeIndex, 0);
    MapAppend(s, items, [Leaf(ARG_TYPE, typeIndex, j - typeIndex, 0)]);
    if p.msg[k] == u_comma {
      SameAt(p, q, s, a, b, k + 1);
    }
  }

  lemma SameArgHead(p: Grammar, q: Grammar, s: set<nat>, a: nat, b: nat, i: nat)
    requires Same(p, q, s, a, b) && a <= i <= b && p.ArgHead(i).Ok? && p.ArgHead(i).value.next <= b
    ensures var head := p.ArgHead(i).value;
      && Mu(s, i) <= |q.msg|
      && q.ArgHead(Mu(s, i)) == Ok(Head(MapItems(s, head.items), head.argType, head.comma, Mu(s, head.next)))
  {
    hide Mu, MapItems, Same, Grammar.ArgTypeName, Grammar.ArgName;
    var nameIndex := p.SkipWhiteSpace(i);
    var name := p.ArgName(nameIndex).value;
    var j := p.SkipWhiteSpace(name.next);
    SameAt(p, q, s, a, b, i);
    SameSkipWhiteSpace(p, q, s, a, b, i);
    SameAt(p, q, s, a, b, nameIndex);
    SameArgName(p, q, s, a, b, nameIndex);
    SameSkipWhiteSpace(p, q, s, a, b, name.next);
    SameAt(p, q, s, a, b, j);
    if p.msg[j] == u_comma {
      SameAt(p, q, s, a, b, j + 1);
      SameArgTypeName(p, q, s, a, b, name.items, j + 1);
    }
  }

  lemma {:induction false} SameSmallNumber(p: Grammar, q: Grammar, s: set<nat>, a: nat, b: nat, k: nat, limit: nat,
                                           value: nat, negative: nat)
    requires Same(p, q, s, a, b) && a <= k <= limit <= b
    ensures Mu(s, k) <= Mu(s, limit) <= |q.msg|
    ensures q.SmallNumber(Mu(s, k), Mu(s, limit), value, negative) == p.SmallNumber(k, limit, value, negative)
    decreases limit - k
  {
    hide Mu, Same;
    SameAt(p, q, s, a, b, k);
    SameAt(p, q, s, a, b, limit);
    if k < limit && IsDigit(p.msg[k]) {
      var v := value * 10 + (p.msg[k] as int - 0x30);
      SameAt(p, q, s, a, b, k + 1);
      SameSmallNumber(p, q, s, a, b, k + 1, limit, v, negative);
    }
  }

  lemma SameNumberAt(p: Grammar, q: Grammar, s: set<nat>, a: nat, b: nat, start: nat, limit: nat, allowInfinity: bool)
    requires Same(p, q, s, a, b) && a <= start < limit <= b
    ensures Mu(s, start) < Mu(s, limit) <= |q.msg|
    ensures q.NumberAt(Mu(s, start), Mu(s, limit), allowInfinity) == p.NumberAt(start, limit, allowInfinity)
  {
    hide Mu, Grammar.SmallNumber;
    SameAt(p, q, s, a, b, start);
    SameAt(p, q, s, a, b, start + 1);
    SameAt(p, q, s, a, b, limit);
    SameSlice(p, q, s, a, b, start, limit);
    var negative := if p.msg[start] == u_minus then 1 else 0;
    var k := if p.msg[start] == u_minus || p.msg[start] == u_plus then start + 1 else start;
    SameAt(p, q, s, a, b, k);
    SameSmallNumber(p, q, s, a, b, k, limit, 0, negative);
  }

  lemma SameNumberPart(p: Grammar, q: Grammar, s: set<nat>, a: nat, b: nat, start: nat, limit: nat, allowInfinity: bool,
                       doubles: nat)
    requires Same(p, q, s, a, b) && a <= start < limit <= b && p.NumberPart(start, limit, allowInfinity, doubles).Ok?
    ensures Mu(s, start) < Mu(s, limit) <= |q.msg|
    ensures q.NumberPart(Mu(s, start), Mu(s, limit), allowInfinity, doubles) ==
              Ok(MapPiece(s, p.NumberPart(start, limit, allowInfinity, doubles).value))
  {
    hide Mu, MapItems, Same, Grammar.NumberAt;
    SameAt(p, q, s, a, b, limit);
    SameNumberAt(p, q, s, a, b, start, limit, allowInfinity);
    SameSlice(p, q, s, a, b, start, limit);
    var leaf := p.NumberPart(start, limit, allowInfinity, doubles).value.items[0];
    assert p.NumberPart(start, limit, allowInfinity, doubles).value.items == [leaf];
    MapLeaf(s, leaf.kind, leaf.index, leaf.length, leaf.value);
  }

  lemma SameChoiceHead(p: Grammar, q: Grammar, s: set<nat>, a: nat, b: nat, i: nat, doubles: nat)
    requires Same(p, q, s, a, b) && a <= i <= b && p.ChoiceHead(i, doubles).Ok? && p.ChoiceHead(i, doubles).value.next <= b
    ensures Mu(s, i) <= |q.msg|
    ensures q.ChoiceHead(Mu(s, i), doubles) == Ok(MapPiece(s, p.ChoiceHead(i, doubles).value))
  {
    hide Mu, MapItems, Same, Grammar.NumberPart;
    var j := p.SkipDouble(i);
    var k := p.SkipWhiteSpace(j);
    var number := p.NumberPart(i, j, true, doubles).value;
    SameAt(p, q, s, a, b, i);
    SameSkipDouble(p, q, s, a, b, i);
    SameAt(p, q, s, a, b, j);
    SameNumberPart(p, q, s, a, b, i, j, true, doubles);
    SameSkipWhiteSpace(p, q, s, a, b, j);
    SameAt(p, q, s, a, b, k);
    SameAt(p, q, s, a, b, k + 1);
    MapLeaf(s, ARG_SELECTOR, k, 1, 0);
    MapAppend(s, number.items, [Leaf(ARG_SELECTOR, k, 1, 0)]);
  }

  lemma SameSliceTo(p: Grammar, q: Grammar, s: set<nat>, a: nat, b: nat, i: nat, j: nat)
    requires Same(p, q, s, a, b) && a <= i <= j <= b
    ensures j < |p.msg| && Mu(s, i) <= Mu(s, j) < |q.msg|
    ensures q.msg[Mu(s, i)..Mu(s, j) + 1] == p.msg[i..j + 1]
  {
    hide Mu, Same;
    SameAt(p, q, s, a, b, i);
    SameAt(p, q, s, a, b, j);
    SameSlice(p, q, s, a, b, i, j);
    assert q.msg[Mu(s, i)..Mu(s, j) + 1] == q.msg[Mu(s, i)..Mu(s, j)] + [q.msg[Mu(s, j)]];
    assert p.msg[i..j + 1] == p.msg[i..j] + [p.msg[j]];
  }

  lemma SameIsOffset(p: Grammar, q: Grammar, s: set<nat>, a: nat, b: nat, argType: ArgType, i: nat)
    requires Same(p, q, s, a, b) && a <= i <= b < |p.msg| && p.SkipIdentifier(i) <= b
    ensures Mu(s, i) < |q.msg| && q.IsOffset(argType, Mu(s, i)) == p.IsOffset(argType, i)
    ensures q.IsSelector(argType, Mu(s, i)) == p.IsSelector(argType, i)
    ensures q.IsOther(argType, Mu(s, i)) == p.IsOther(argType, i)
  {
    hide Mu, Same, Grammar.SkipIdentifier;
    var j := p.SkipIdentifier(i);
    SameAt(p, q, s, a, b, i);
    SameSkipIdentifier(p, q, s, a, b, i);
    SameAt(p, q, s, a, b, j);
    SameSlice(p, q, s, a, b, i, j);
    SameSliceTo(p, q, s, a, b, i, j);
  }

  lemma SameExplicit(p: Grammar, q: Grammar, s: set<nat>, a: nat, b: nat, argType: ArgType, i: nat, isEmpty: bool,
                     doubles: nat)
    requires Same(p, q, s, a, b) && a <= i <= b < |p.msg| && HasPluralStyle(argType) && p.msg[i] == u_equal
    requires p.Selector(argType, i, isEmpty, doubles).Ok? && p.Selector(argType, i, isEmpty, doubles).value.next <= b
    ensures Mu(s, i) < |q.msg|
    ensures q.Selector(argType, Mu(s, i), isEmpty, doubles) == Ok(MapPiece(s, p.Selector(argType, i, isEmpty, doubles).value))
    ensures q.IsSelector(argType, Mu(s, i)) && p.IsSelector(argType, i)
    ensures !q.IsOther(argType, Mu(s, i)) && !p.IsOther(argType, i)
  {
    hide Mu, MapItems, Same, Grammar.NumberPart, Grammar.IsOffset;
    var j := p.SkipDouble(i + 1);
    SameAt(p, q, s, a, b, i);
    SameAt(p, q, s, a, b, i + 1);
    SameAt(p, q, s, a, b, j);
    SameSkipDouble(p, q, s, a, b, i + 1);
    SameNumberPart(p, q, s, a, b, i + 1, j, false, doubles);
    MapLeaf(s, ARG_SELECTOR, i, j - i, 0);
    MapAppend(s, [Leaf(ARG_SELECTOR, i, j - i, 0)], p.NumberPart(i + 1, j, false, doubles).value.items);
  }

  lemma SameSelector(p: Grammar, q: Grammar, s: set<nat>, a: nat, b: nat, argType: ArgType, i: nat, isEmpty: bool,
                     doubles: nat)
    requires Same(p, q, s, a, b) && a <= i <= b < |p.msg|
    requires p.Selector(argType, i, isEmpty, doubles).Ok? && p.Selector(argType, i, isEmpty, doubles).value.next <= b
    ensures Mu(s, i) < |q.msg|
    ensures q.Selector(argType, Mu(s, i), isEmpty, doubles) == Ok(MapPiece(s, p.Selector(argType, i, isEmpty, doubles).value))
    ensures q.IsSelector(argType, Mu(s, i)) == p.IsSelector(argType, i)
    ensures q.IsOther(argType, Mu(s, i)) == p.IsOther(argType, i)
  {
    hide Mu, MapItems, Same, Grammar.Selector, Grammar.IsOffset, Grammar.IsSelector, Grammar.IsOther;
    if HasPluralStyle(argType) && p.msg[i] == u_equal {
      SameExplicit(p, q, s, a, b, argType, i, isEmpty, doubles);
    } else {
      KeywordEnd(p, argType, i, isEmpty, doubles);
      SameIsOffset(p, q, s, a, b, argType, i);
      if p.IsOffset(argType, i) {
        SameOffset(p, q, s, a, b, argType, i, isEmpty, doubles);
      } else {
        SameKeyword(p, q, s, a, b, argType, i, isEmpty, doubles);
      }
    }
  }

  lemma KeywordEnd(p: Grammar, argType: ArgType, i: nat, isEmpty: bool, doubles: nat)
    requires i < |p.msg| && p.Selector(argType, i, isEmpty, doubles).Ok?
    requires !(HasPluralStyle(argType) && p.msg[i] == u_equal)
    ensures p.SkipIdentifier(i) <= p.Selector(argType, i, isEmpty, doubles).value.next
  {
    hide Grammar.NumberPart;
  }

  lemma SameOffset(p: Grammar, q: Grammar, s: set<nat>, a: nat, b: nat, argType: ArgType, i: nat, isEmpty: bool, doubles: nat)
    requires Same(p, q, s, a, b) && a <= i <= b < |p.msg| && !(HasPluralStyle(argType) && p.msg[i] == u_equal)
    requires p.IsOffset(argType, i) && Mu(s, i) < |q.msg| && q.IsOffset(argType, Mu(s, i))
    requires p.Selector(argType, i, isEmpty, doubles).Ok? && p.Selector(argType, i, isEmpty, doubles).value.next <= b
    ensures q.Selector(argType, Mu(s, i), isEmpty, doubles) == Ok(MapPiece(s, p.Selector(argType, i, isEmpty, doubles).value))
  {
    hide Mu, MapItems, Same, Grammar.NumberPart, Grammar.IsOffset;
    hide Grammar.SkipIdentifier, Grammar.SkipWhiteSpace, Grammar.SkipDouble;
    OffsetColon(p, argType, i);
    var j := p.SkipIdentifier(i);
    var valueIndex := p.SkipWhiteSpace(j + 1);
    var k := p.SkipDouble(valueIndex);
    SameAt(p, q, s, a, b, i);
    SameSkipIdentifier(p, q, s, a, b, i);
    SameAt(p, q, s, a, b, j);
    SameAt(p, q, s, a, b, j + 1);
    SameSkipWhiteSpace(p, q, s, a, b, j + 1);
    SameSkipDouble(p, q, s, a, b, valueIndex);
    SameSlice(p, q, s, a, b, valueIndex, k);
    SameNumberPart(p, q, s, a, b, valueIndex, k, false, doubles);
  }

  lemma SameKeyword(p: Grammar, q: Grammar, s: set<nat>, a: nat, b: nat, argType: ArgType, i: nat, isEmpty: bool, doubles: nat)
    requires Same(p, q, s, a, b) && a <= i <= b < |p.msg| && !(HasPluralStyle(argType) && p.msg[i] == u_equal)
    requires !p.IsOffset(argType, i) && Mu(s, i) < |q.msg| && !q.IsOffset(argType, Mu(s, i))
    requires p.Selector(argType, i, isEmpty, doubles).Ok? && p.Selector(argType, i, isEmpty, doubles).value.next <= b
    ensures q.Selector(argType, Mu(s, i), isEmpty, doubles) == Ok(MapPiece(s, p.Selector(argType, i, isEmpty, doubles).value))
  {
    hide Mu, MapItems, Same, Grammar.NumberPart, Grammar.IsOffset;
    var j := p.SkipIdentifier(i);
    SameAt(p, q, s, a, b, i);
    SameSkipIdentifier(p, q, s, a, b, i);
    SameSlice(p, q, s, a, b, i, j);
    MapLeaf(s, ARG_SELECTOR, i, j - i, 0);
  }

  /** From lo to hi, the insertions are those in the list. */
  ghost predicate Matches(s: set<nat>, lo: nat, hi: nat, list: seq<nat>) {
    forall t: nat :: lo < t <= hi ==> (t in s <==> t in list)
  }

  lemma MatchesSplit(s: set<nat>, lo: nat, middle: nat, hi: nat, x: seq<nat>, y: seq<nat>)
    requires Matches(s, lo, hi, x + y) && Between(x, lo, middle) && Between(y, middle, hi)
    ensures Matches(s, lo, middle, x) && Matches(s, middle, hi, y)
  {
  }

  lemma MatchesNothing(s: set<nat>, lo: nat, middle: nat, hi: nat, list: seq<nat>)
    requires Matches(s, lo, hi, list) && lo <= middle && Between(list, middle, hi)
    ensures Free(s, lo, middle) && Matches(s, middle, hi, list)
  {
  }

  lemma MatchesShorter(s: set<nat>, lo: nat, hi: nat, hi1: nat, list: seq<nat>)
    requires Matches(s, lo, hi, list) && hi1 <= hi
    ensures Matches(s, lo, hi1, list)
  {
  }

  /** After the last insertion there are none. */
  lemma MatchesEnd(s: set<nat>, lo: nat, middle: nat, hi: nat, list: seq<nat>)
    requires Matches(s, lo, hi, list) && Between(list, lo, middle) && middle <= hi
    ensures Free(s, middle, hi)
  {
  }
}
