/** The message pattern parser, which appends parts to a list while an index moves through the pattern. */
module MessagePattern {
  import opened Basics
  import opened Utf16
  import opened MessageParts
  import opened MessageGrammar
  import opened MessageShape
  import opened MessageInserts
  import opened MessageValues
  import opened AutoQuote
  import opened AutoQuoteMeaning

  ghost predicate HasKind(parts: seq<Part>, kind: PartType) {
    exists k :: 0 <= k < |parts| && parts[k].kind == kind
  }

  lemma KindAdded(parts: seq<Part>, part: Part, kind: PartType)
    ensures HasKind(parts + [part], kind) == (HasKind(parts, kind) || kind == part.kind)
  {
    var all := parts + [part];
    assert all[|parts|] == part;
    if k :| 0 <= k < |parts| && parts[k].kind == kind {
      assert all[k].kind == kind;
    }
  }

  lemma KindUpdated(parts: seq<Part>, start: nat, limit: nat, kind: PartType)
    requires start < |parts|
    ensures HasKind(parts[start := parts[start].(limitPartIndex := limit)], kind) == HasKind(parts, kind)
  {
    var all := parts[start := parts[start].(limitPartIndex := limit)];
    if k :| 0 <= k < |parts| && parts[k].kind == kind {
      assert all[k].kind == kind;
    }
    if k :| 0 <= k < |all| && all[k].kind == kind {
      assert parts[k].kind == kind;
    }
  }

  lemma KindChanged(parts: seq<Part>, start: nat, value: int, kind: PartType)
    requires start < |parts|
    ensures HasKind(parts[start := parts[start].(value := value)], kind) == HasKind(parts, kind)
  {
    var all := parts[start := parts[start].(value := value)];
    if k :| 0 <= k < |parts| && parts[k].kind == kind {
      assert all[k].kind == kind;
    }
    if k :| 0 <= k < |all| && all[k].kind == kind {
      assert parts[k].kind == kind;
    }
  }

  /** More items after some items. */
  lemma FlattenMore(before: seq<Part>, items: seq<Item>, more: seq<Item>, middle: seq<Part>, after: seq<Part>)
    requires middle == before + Flatten(items, |before|) && after == middle + Flatten(more, |middle|)
    ensures after == before + Flatten(items + more, |before|)
  {
    hide Flatten;
    FlattenAppend(items, more, |before|);
    assert |middle| == |before| + |Flatten(items, |before|)|;
    Associate(before, Flatten(items, |before|), Flatten(more, |middle|));
  }

  /** After the limit part has been added, and the start part refers to it. */
  ghost predicate Limited(before: seq<Part>, start: Part, inner: seq<Part>, limit: Part, inside: seq<Part>, after: seq<Part>) {
    && inside == before + [start] + inner
    && after == inside[|before| := inside[|before|].(limitPartIndex := |inside|)] + [limit]
  }

  /** Items between a start part and its limit part. */
  lemma FlattenGroup(before: seq<Part>, isMessage: bool, index: nat, length: nat, value: int, items: seq<Item>,
                     limitIndex: nat, limitLength: nat, inside: seq<Part>, after: seq<Part>)
    requires Limited(before, Part(StartType(isMessage), index, length, value, 0), Flatten(items, |before| + 1),
                     Part(LimitType(isMessage), limitIndex, limitLength, value, 0), inside, after)
    ensures after == before + Flatten([Group(isMessage, index, length, value, items, limitIndex, limitLength)], |before|)
  {
    hide Flatten, FlattenItem, Limited;
    FlattenOne(Group(isMessage, index, length, value, items, limitIndex, limitLength), |before|);
    GroupParts(isMessage, index, length, value, items, limitIndex, limitLength, |before|);
    Bracket(before, Part(StartType(isMessage), index, length, value, 0), Flatten(items, |before| + 1),
            Part(LimitType(isMessage), limitIndex, limitLength, value, 0), inside, after);
  }

  lemma GroupParts(isMessage: bool, index: nat, length: nat, value: int, items: seq<Item>,
                   limitIndex: nat, limitLength: nat, base: nat)
    ensures FlattenItem(Group(isMessage, index, length, value, items, limitIndex, limitLength), base) ==
      [Part(StartType(isMessage), index, length, value, base + 1 + |Flatten(items, base + 1)|)] + Flatten(items, base + 1)
      + [Part(LimitType(isMessage), limitIndex, limitLength, value, 0)]
  {
    hide Flatten;
  }

  lemma Bracket(before: seq<Part>, start: Part, inner: seq<Part>, limit: Part, inside: seq<Part>, after: seq<Part>)
    requires Limited(before, start, inner, limit, inside, after)
    ensures after == before + ([start.(limitPartIndex := |before| + 1 + |inner|)] + inner + [limit])
  {
    assert inside[|before|] == start;
  }

  lemma FlattenNothing(before: seq<Part>)
    ensures before == before + Flatten([], |before|)
  {
  }

  /** One apostrophe of quoted text, or its end. */
  lemma QuotedStep(g: Grammar, i: nat, items: seq<Item>)
    requires i <= |g.msg|
    ensures var q := g.IndexOf(u_apos, i);
      if q == |g.msg| then g.Quoted(i) == ([Leaf(INSERT_CHAR, q, 0, u_apos as int)], q)
      else if q + 1 < |g.msg| && g.msg[q + 1] == u_apos then
        && g.Quoted(i).1 == g.Quoted(q + 2).1
        && items + g.Quoted(i).0 == (items + [Leaf(SKIP_SYNTAX, q + 1, 1, 0)]) + g.Quoted(q + 2).0
      else g.Quoted(i) == ([Leaf(SKIP_SYNTAX, q, 1, 0)], q + 1)
  {
    var q := g.IndexOf(u_apos, i);
    if q + 1 < |g.msg| && g.msg[q + 1] == u_apos {
      Associate(items, [Leaf(SKIP_SYNTAX, q + 1, 1, 0)], g.Quoted(q + 2).0);
    }
  }

  lemma PrefixedTwice(a: seq<Item>, b: seq<Item>, r: Outcome<Body>)
    ensures Prefixed(a, Prefixed(b, r)) == Prefixed(a + b, r)
  {
    if r.Ok? {
      assert a + (b + r.value.items) == (a + b) + r.value.items;
    }
  }

  lemma PrefixedPieceTwice(a: seq<Item>, b: seq<Item>, r: Outcome<Piece>)
    ensures PrefixedPiece(a, PrefixedPiece(b, r)) == PrefixedPiece(a + b, r)
  {
    if r.Ok? {
      assert a + (b + r.value.items) == (a + b) + r.value.items;
    }
  }

  class MessagePattern {
    const doubleRequired: bool
    const whiteSpace: set<Unit>
    const syntaxOrWhiteSpace: set<Unit>
    const parsesAsDouble: seq<Unit> -> bool
    var msg: seq<Unit>
    var parts: seq<Part>
    var numericValues: seq<seq<Unit>>
    var hasArgNames: bool
    var hasArgNumbers: bool
    var needsAutoQuoting: bool

    constructor (apostropheDoubleRequired: bool, space: set<Unit>, syntaxOrSpace: set<Unit>, isDouble: seq<Unit> -> bool)
      ensures doubleRequired == apostropheDoubleRequired && parsesAsDouble == isDouble
      ensures whiteSpace == space && syntaxOrWhiteSpace == syntaxOrSpace
      ensures msg == [] && parts == []
    {
      doubleRequired, whiteSpace, syntaxOrWhiteSpace := apostropheDoubleRequired, space, syntaxOrSpace;
      parsesAsDouble := isDouble;
      msg, parts, numericValues := [], [], [];
      hasArgNames, hasArgNumbers, needsAutoQuoting := false, false, false;
    }

    /** The grammar for the current pattern. */
    ghost function G(): Grammar
      reads this`msg
    {
      Grammar(msg, doubleRequired, whiteSpace, syntaxOrWhiteSpace, parsesAsDouble)
    }

    /** The flags say which kinds of parts there are, and the numeric values are those of the parts. */
    ghost predicate Flags()
      reads this
    {
      && ValuesOf(parts, numericValues, msg)
      && needsAutoQuoting == HasKind(parts, INSERT_CHAR)
      && hasArgNames == HasKind(parts, ARG_NAME) && hasArgNumbers == HasKind(parts, ARG_NUMBER)
    }

    /** The parts of these items have been added since there were the parts before, and the numbers since. */
    ghost predicate Added(before: seq<Part>, items: seq<Item>, doubles: nat)
      reads this
    {
      Flags() && parts == before + Flatten(items, |before|) && |numericValues| == doubles
    }

    /** What a parse method returns and adds: what the grammar says. */
    ghost predicate Returns(spec: Outcome<Piece>, before: seq<Part>, r: Outcome<nat>)
      reads this
    {
      if spec.Fail? then r == Fail(spec.error)
      else r == Ok(spec.value.next) && Added(before, spec.value.items, spec.value.doubles)
    }

    method AddPart(kind: PartType, index: nat, length: nat, value: int)
      modifies this`parts
      ensures parts == old(parts) + [Part(kind, index, length, value, 0)]
      ensures parts == old(parts) + Flatten([Leaf(kind, index, length, value)], |old(parts)|)
      ensures forall k :: HasKind(parts, k) == (HasKind(old(parts), k) || k == kind)
      ensures kind != ARG_DOUBLE && ValuesOf(old(parts), numericValues, msg) ==> ValuesOf(parts, numericValues, msg)
    {
      ghost var before := parts;
      parts := parts + [Part(kind, index, length, value, 0)];
      if kind != ARG_DOUBLE && ValuesOf(before, numericValues, msg) {
        ValuesKept(before, Part(kind, index, length, value, 0), numericValues, msg);
      }
      FlattenOne(Leaf(kind, index, length, value), |before|);
      forall k
        ensures HasKind(parts, k) == (HasKind(before, k) || k == kind)
      {
        KindAdded(before, Part(kind, index, length, value, 0), k);
      }
    }

    /** Adds a limit part, and lets the start part refer to it. */
    method AddLimitPart(start: nat, kind: PartType, index: nat, length: nat, value: int)
      requires start < |parts|
      modifies this`parts
      ensures parts == old(parts)[start := old(parts)[start].(limitPartIndex := |old(parts)|)]
                       + [Part(kind, index, length, value, 0)]
      ensures forall k :: HasKind(parts, k) == (HasKind(old(parts), k) || k == kind)
      ensures IsStart(old(parts)[start]) && kind != ARG_DOUBLE && ValuesOf(old(parts), numericValues, msg) ==>
                ValuesOf(parts, numericValues, msg)
    {
      hide HasKind, ValuesOf, Flatten;
      ghost var before := parts;
      if IsStart(before[start]) && ValuesOf(before, numericValues, msg) {
        ValuesUpdated(before, start, before[start].(limitPartIndex := |before|), numericValues, msg);
      }
      forall k
        ensures HasKind(before[start := before[start].(limitPartIndex := |before|)], k) == HasKind(before, k)
      {
        KindUpdated(before, start, |before|, k);
      }
      parts := parts[start := parts[start].(limitPartIndex := |parts|)];
      AddPart(kind, index, length, value);
    }

    method SkipWhiteSpace(start: nat) returns (index: nat)
      requires start <= |msg|
      ensures index == G().SkipWhiteSpace(start)
    {
      index := start;
      while index < |msg| && msg[index] in whiteSpace
        invariant start <= index <= |msg| && G().SkipWhiteSpace(start) == G().SkipWhiteSpace(index)
      {
        index := index + 1;
      }
    }

    method SkipIdentifier(start: nat) returns (index: nat)
      requires start <= |msg|
      ensures index == G().SkipIdentifier(start)
    {
      index := start;
      while index < |msg| && msg[index] !in syntaxOrWhiteSpace
        invariant start <= index <= |msg| && G().SkipIdentifier(start) == G().SkipIdentifier(index)
      {
        index := index + 1;
      }
    }

    method SkipDouble(start: nat) returns (index: nat)
      requires start <= |msg|
      ensures index == G().SkipDouble(start)
    {
      index := start;
      while index < |msg|
        invariant start <= index <= |msg| && G().SkipDouble(start) == G().SkipDouble(index)
      {
        var c := msg[index];
        if (c < 0x30 && c != u_plus && c != u_minus && c != u_dot) ||
           (c > 0x39 && c != 0x65 && c != 0x45 && c != u_infinity) {
          break;
        }
        index := index + 1;
      }
    }

    /** The next apostrophe from start on, or -1. */
    method IndexOfApostrophe(start: nat) returns (index: int)
      requires start <= |msg|
      ensures var q := G().IndexOf(u_apos, start); index == if q == |msg| then -1 else q
    {
      index := start;
      while index < |msg| && msg[index] != u_apos
        invariant start <= index <= |msg| && G().IndexOf(u_apos, start) == G().IndexOf(u_apos, index)
      {
        index := index + 1;
      }
      if index == |msg| {
        index := -1;
      }
    }

    /** The number which is written from start0 to limit, or whether it is a name. */
    method ParseArgNumber(start0: nat, limit: nat) returns (number: int)
      requires start0 <= limit <= |msg|
      ensures number == ArgNumber(msg[start0..limit])
    {
      ghost var s := msg[start0..limit];
      var start := start0;
      if start >= limit {
        return ARG_NAME_NOT_VALID;
      }
      var badNumber;
      var c := msg[start];
      start := start + 1;
      if c == 0x30 {
        if start == limit {
          return 0;
        }
        number := 0;
        badNumber := true;
      } else if IsDigit(c) {
        number := c as int - 0x30;
        badNumber := false;
      } else {
        return ARG_NAME_NOT_NUMBER;
      }
      while start < limit
        invariant start0 < start <= limit && number >= 0
        invariant ArgNumber(s) == ArgDigits(s, start - start0, number, badNumber)
      {
        c := msg[start];
        start := start + 1;
        if IsDigit(c) {
          if number >= INT32_MAX / 10 {
            badNumber := true;
          }
          number := number * 10 + (c as int - 0x30);
        } else {
          return ARG_NAME_NOT_NUMBER;
        }
      }
      if badNumber {
        number := ARG_NAME_NOT_VALID;
      }
    }

    /** What kind of number is written from start to limit. */
    method ReadNumber(start: nat, limit: nat, allowInfinity: bool) returns (number: Number)
      requires start < limit <= |msg|
      ensures number == G().NumberAt(start, limit, allowInfinity)
    {
      var value, isNegative, index := 0, 0, start;
      var c := msg[index];
      index := index + 1;
      if c == u_minus {
        isNegative := 1;
        if index == limit {
          return BadNumber;
        }
        c := msg[index];
        index := index + 1;
      } else if c == u_plus {
        if index == limit {
          return BadNumber;
        }
        c := msg[index];
        index := index + 1;
      }
      if c == u_infinity {
        return if allowInfinity && index == limit then DoubleNumber else BadNumber;
      }
      ghost var spec := G().SmallNumber(index - 1, limit, 0, isNegative);
      while IsDigit(c)
        invariant start < index <= limit && c == msg[index - 1] && value >= 0 && isNegative >= 0
        invariant spec == G().SmallNumber(index - 1, limit, value, isNegative)
        decreases limit - index
      {
        value := value * 10 + (c as int - 0x30);
        if value > MAX_VALUE + isNegative {
          break;
        }
        if index == limit {
          return SmallInt(if isNegative != 0 then 0 - value else value);
        }
        c := msg[index];
        index := index + 1;
      }
      if limit - start >= 128 || !parsesAsDouble(msg[start..limit]) {
        return BadNumber;
      }
      number := DoubleNumber;
    }

    /** Adds the part for a number. */
    method ParseDouble(start: nat, limit: nat, allowInfinity: bool) returns (r: Outcome<nat>)
      requires start < limit <= |msg| && Flags()
      modifies this`parts, this`numericValues
      ensures Returns(G().NumberPart(start, limit, allowInfinity, |old(numericValues)|), old(parts), r)
    {
      hide HasKind, ValuesOf, Flatten, Grammar.NumberAt;
      var number := ReadNumber(start, limit, allowInfinity);
      match number {
      case BadNumber =>
        return Fail(PATTERN_SYNTAX);
      case SmallInt(value) =>
        AddPart(ARG_INT, start, limit - start, value);
      case DoubleNumber =>
        var numericIndex := |numericValues|;
        if numericIndex > MAX_VALUE {
          return Fail(INDEX_OUTOFBOUNDS);
        }
        ValueAdded(parts, Part(ARG_DOUBLE, start, limit - start, numericIndex, 0), numericValues, msg);
        numericValues := numericValues + [msg[start..limit]];
        AddPart(ARG_DOUBLE, start, limit - start, numericIndex);
      }
      r := Ok(limit);
    }

    /** Finds the end of a simple style, and adds a part for it. */
    method ParseSimpleStyle(start: nat) returns (r: Outcome<nat>)
      requires start <= |msg| && Flags()
      modifies this`parts
      ensures Returns(G().ArgStyle(SIMPLE, start, 0, |numericValues|), old(parts), r)
    {
      hide HasKind, ValuesOf, Flatten, Grammar.SimpleStyle;
      var index, nestedBraces: nat := start, 0;
      while index < |msg|
        invariant start <= index <= |msg| && G().SimpleStyle(start, start, 0) == G().SimpleStyle(index, start, nestedBraces)
        modifies {}
      {
        SimpleStep(G(), index, start, nestedBraces);
        var c := msg[index];
        index := index + 1;
        if c == u_apos {
          var quote := IndexOfApostrophe(index);
          if quote < 0 {
            return Fail(PATTERN_SYNTAX);
          }
          index := quote + 1;
        } else if c == u_leftCurlyBrace {
          nestedBraces := nestedBraces + 1;
        } else if c == u_rightCurlyBrace {
          if nestedBraces > 0 {
            nestedBraces := nestedBraces - 1;
          } else {
            index := index - 1;
            var length := index - start;
            if length > MAX_LENGTH {
              return Fail(INDEX_OUTOFBOUNDS);
            }
            break;
          }
        }
      }
      SimpleStep(G(), index, start, nestedBraces);
      if index == |msg| {
        return Fail(UNMATCHED_BRACES);
      }
      AddPart(ARG_STYLE, start, index - start, 0);
      r := Ok(index);
    }

    /** Quoted text after its first apostrophe; the closing apostrophe can be missing. */
    method ParseQuoted(start: nat) returns (index: nat)
      requires start <= |msg| && Flags()
      modifies this`parts, this`needsAutoQuoting
      ensures index == G().Quoted(start).1 && Added(old(parts), G().Quoted(start).0, |numericValues|)
    {
      hide HasKind, ValuesOf, Flatten, Grammar.Quoted;
      index := start;
      ghost var before := parts;
      ghost var items: seq<Item> := [];
      FlattenNothing(before);
      while true
        invariant start <= index <= |msg| && Added(before, items, |numericValues|)
        invariant G().Quoted(start).1 == G().Quoted(index).1
        invariant G().Quoted(start).0 == items + G().Quoted(index).0
        modifies this`parts, this`needsAutoQuoting
        decreases |msg| - index
      {
        ghost var middle := parts;
        QuotedStep(G(), index, items);
        var quote := IndexOfApostrophe(index);
        if quote >= 0 {
          if quote + 1 < |msg| && msg[quote + 1] == u_apos {
            AddPart(SKIP_SYNTAX, quote + 1, 1, 0);
            FlattenMore(before, items, [Leaf(SKIP_SYNTAX, quote + 1, 1, 0)], middle, parts);
            items := items + [Leaf(SKIP_SYNTAX, quote + 1, 1, 0)];
            index := quote + 2;
          } else {
            AddPart(SKIP_SYNTAX, quote, 1, 0);
            FlattenMore(before, items, [Leaf(SKIP_SYNTAX, quote, 1, 0)], middle, parts);
            index := quote + 1;
            break;
          }
        } else {
          index := |msg|;
          AddPart(INSERT_CHAR, index, 0, u_apos as int);
          FlattenMore(before, items, [Leaf(INSERT_CHAR, index, 0, u_apos as int)], middle, parts);
          needsAutoQuoting := true;
          break;
        }
      }
    }

    /** One character of text, or an apostrophe with what it quotes. */
    method ParseText(start: nat, parentType: ArgType) returns (index: nat)
      requires start < |msg| && Flags()
      modifies this`parts, this`needsAutoQuoting
      ensures index == G().Text(start, parentType).1 && Added(old(parts), G().Text(start, parentType).0, |numericValues|)
    {
      hide HasKind, ValuesOf, Flatten, Grammar.Apostrophe;
      FlattenNothing(parts);
      index := start;
      var c := msg[index];
      index := index + 1;
      if c == u_apos {
        index := ParseApostrophe(index, parentType);
      } else if HasPluralStyle(parentType) && c == u_pound {
        AddPart(REPLACE_NUMBER, index - 1, 1, 0);
      }
    }

    /** What follows an apostrophe. */
    method ParseApostrophe(start: nat, parentType: ArgType) returns (index: nat)
      requires 0 < start <= |msg| && Flags()
      modifies this`parts, this`needsAutoQuoting
      ensures index == G().Apostrophe(start - 1, parentType).1
      ensures Added(old(parts), G().Apostrophe(start - 1, parentType).0, |numericValues|)
    {
      hide HasKind, ValuesOf, Flatten, Grammar.Quoted;
      ghost var before := parts;
      index := start;
      if index == |msg| {
        AddPart(INSERT_CHAR, index, 0, u_apos as int);
        needsAutoQuoting := true;
      } else {
        var c := msg[index];
        if c == u_apos {
          AddPart(SKIP_SYNTAX, index, 1, 0);
          index := index + 1;
        } else if
          doubleRequired || c == u_leftCurlyBrace || c == u_rightCurlyBrace ||
          (parentType == CHOICE && c == u_pipe) || (HasPluralStyle(parentType) && c == u_pound)
        {
          AddPart(SKIP_SYNTAX, index - 1, 1, 0);
          ghost var middle := parts;
          index := ParseQuoted(index + 1);
          FlattenMore(before, [Leaf(SKIP_SYNTAX, start - 1, 1, 0)], G().Quoted(start + 1).0, middle, parts);
        } else {
          AddPart(INSERT_CHAR, index, 0, u_apos as int);
          needsAutoQuoting := true;
        }
      }
    }

    /** The name or number of an argument. */
    method ParseArgName(nameIndex: nat) returns (r: Outcome<nat>)
      requires nameIndex <= |msg| && Flags()
      modifies this`parts, this`hasArgNames, this`hasArgNumbers
      ensures var spec := G().ArgName(nameIndex);
        if spec.Fail? then r == Fail(spec.error)
        else r == Ok(spec.value.next) && Added(old(parts), spec.value.items, |numericValues|)
    {
      hide HasKind, ValuesOf, Flatten, ArgNumber, Grammar.SkipIdentifier;
      var index := SkipIdentifier(nameIndex);
      var number := ParseArgNumber(nameIndex, index);
      var length := index - nameIndex;
      if number >= 0 {
        if length > MAX_LENGTH || number > MAX_VALUE {
          return Fail(INDEX_OUTOFBOUNDS);
        }
        hasArgNumbers := true;
        AddPart(ARG_NUMBER, nameIndex, length, number);
      } else if number == ARG_NAME_NOT_NUMBER {
        if length > MAX_LENGTH {
          return Fail(INDEX_OUTOFBOUNDS);
        }
        hasArgNames := true;
        AddPart(ARG_NAME, nameIndex, length, 0);
      } else {
        return Fail(PATTERN_SYNTAX);
      }
      r := Ok(index);
    }

    /** The type of an argument after the comma, and whether a style follows. */
    method ParseArgType(start: nat, argStart: nat, ghost before: seq<Part>, ghost open: Part, ghost items: seq<Item>)
      returns (r: Outcome<nat>, argType: ArgType, comma: bool)
      requires start <= |msg| && argStart == |before| && Added(before + [open], items, |numericValues|) && IsStart(open)
      modifies this`parts
      ensures var spec := G().ArgTypeName(items, start);
        if spec.Fail? then r == Fail(spec.error)
        else
          && r == Ok(spec.value.next) && argType == spec.value.argType && comma == spec.value.comma
          && Added(before + [open.(value := Code(argType))], spec.value.items, |numericValues|)
    {
      hide HasKind, ValuesOf, Flatten, TypeOf, Code, Grammar.SkipWhiteSpace, Grammar.SkipArgType;
      argType, comma := NONE, false;
      var typeIndex := SkipWhiteSpace(start);
      var index := SkipArgType(typeIndex);
      var length := index - typeIndex;
      index := SkipWhiteSpace(index);
      if index == |msg| {
        return Fail(UNMATCHED_BRACES), argType, comma;
      }
      var c := msg[index];
      if length == 0 || (c != u_comma && c != u_rightCurlyBrace) {
        return Fail(PATTERN_SYNTAX), argType, comma;
      }
      if length > MAX_LENGTH {
        return Fail(INDEX_OUTOFBOUNDS), argType, comma;
      }
      argType := TypeOf(msg[typeIndex..typeIndex + length]);
      SetArgType(argStart, argType, before, open, items);
      if argType == SIMPLE {
        ghost var middle := parts;
        AddPart(ARG_TYPE, typeIndex, length, 0);
        FlattenMore(before + [open.(value := Code(argType))], items, [Leaf(ARG_TYPE, typeIndex, length, 0)], middle, parts);
      }
      if c == u_rightCurlyBrace {
        if argType != SIMPLE {
          return Fail(PATTERN_SYNTAX), argType, comma;
        }
      } else {
        comma := true;
        index := index + 1;
      }
      r := Ok(index);
    }

    method SkipArgType(start: nat) returns (index: nat)
      requires start <= |msg|
      ensures index == G().SkipArgType(start)
    {
      index := start;
      while index < |msg| && IsArgTypeChar(msg[index])
        invariant start <= index <= |msg| && G().SkipArgType(start) == G().SkipArgType(index)
      {
        index := index + 1;
      }
    }

    /** Changes the type of the start part of an argument. */
    method SetArgType(argStart: nat, argType: ArgType, ghost before: seq<Part>, ghost open: Part, ghost items: seq<Item>)
      requires argStart == |before| && Added(before + [open], items, |numericValues|) && IsStart(open)
      modifies this`parts
      ensures Added(before + [open.(value := Code(argType))], items, |numericValues|)
    {
      hide HasKind, ValuesOf, Flatten, Code;
      KindsChanged(parts, argStart, Code(argType));
      ValuesUpdated(parts, argStart, parts[argStart].(value := Code(argType)), numericValues, msg);
      Replaced(before, open, open.(value := Code(argType)), Flatten(items, |before| + 1));
      parts := parts[argStart := parts[argStart].(value := Code(argType))];
    }

    /** The start of an argument after its opening brace. */
    method ParseArgHead(start: nat, argStart: nat, ghost before: seq<Part>, ghost open: Part)
      returns (r: Outcome<nat>, argType: ArgType, comma: bool)
      requires start <= |msg| && argStart == |before| && parts == before + [open] && Flags() && open.value == Code(NONE)
      requires IsStart(open)
      modifies this`parts, this`hasArgNames, this`hasArgNumbers
      ensures var spec := G().ArgHead(start);
        if spec.Fail? then r == Fail(spec.error)
        else
          && r == Ok(spec.value.next) && argType == spec.value.argType && comma == spec.value.comma
          && Added(before + [open.(value := Code(argType))], spec.value.items, |numericValues|)
    {
      hide HasKind, ValuesOf, Flatten, Grammar.ArgName, Grammar.ArgTypeName, Grammar.SkipWhiteSpace;
      argType, comma := NONE, false;
      var nameIndex := SkipWhiteSpace(start);
      if nameIndex == |msg| {
        return Fail(UNMATCHED_BRACES), argType, comma;
      }
      r := ParseArgName(nameIndex);
      if r.Fail? {
        return;
      }
      var index := SkipWhiteSpace(r.value);
      if index == |msg| {
        return Fail(UNMATCHED_BRACES), argType, comma;
      }
      var c := msg[index];
      if c == u_rightCurlyBrace {
        r := Ok(index);
      } else if c != u_comma {
        r := Fail(PATTERN_SYNTAX);
      } else {
        r, argType, comma := ParseArgType(index + 1, argStart, before, open, G().ArgName(nameIndex).value.items);
      }
    }

    /** An argument with its opening brace at index. */
    method ParseArg(index: nat, nestingLevel: nat) returns (r: Outcome<nat>)
      requires index < |msg| && Flags()
      modifies this`parts, this`numericValues, this`hasArgNames, this`hasArgNumbers, this`needsAutoQuoting
      ensures Returns(G().Argument(index, nestingLevel, |old(numericValues)|), old(parts), r)
      decreases |msg| - index, 1, 0
    {
      hide HasKind, ValuesOf, Flatten, Grammar.ArgHead, Grammar.ArgStyle, Code;
      ghost var before, open := parts, Part(ARG_START, index, 1, Code(NONE), 0);
      var argStart := |parts|;
      AddPart(ARG_START, index, 1, Code(NONE));
      ghost var items := G().ArgHead(index + 1);
      var argType, comma;
      r, argType, comma := ParseArgHead(index + 1, argStart, before, open);
      if r.Fail? {
        return;
      }
      var limit := r.value;
      ghost var all := items.value.items;
      if comma {
        ghost var middle := parts;
        r := ParseArgStyle(argType, limit, nestingLevel);
        if r.Fail? {
          return;
        }
        ghost var style := G().ArgStyle(argType, limit, nestingLevel, |old(numericValues)|).value;
        FlattenMore(before + [open.(value := Code(argType))], all, style.items, middle, parts);
        all := all + style.items;
        limit := r.value;
      }
      ghost var inside := parts;
      AddLimitPart(argStart, ARG_LIMIT, limit, 1, Code(argType));
      FlattenGroup(before, false, index, 1, Code(argType), all, limit, 1, inside, parts);
      r := Ok(limit + 1);
    }

    /** The style of an argument, up to its closing brace. */
    method ParseArgStyle(argType: ArgType, index: nat, nestingLevel: nat) returns (r: Outcome<nat>)
      requires index <= |msg| && argType != NONE && Flags()
      modifies this`parts, this`numericValues, this`hasArgNames, this`hasArgNumbers, this`needsAutoQuoting
      ensures Returns(G().ArgStyle(argType, index, nestingLevel, |old(numericValues)|), old(parts), r)
      decreases |msg| - index, 5
    {
      hide HasKind, ValuesOf, Flatten, Grammar.SimpleStyle, Grammar.ChoiceStyle, Grammar.PluralOrSelectStyle;
      if argType == SIMPLE {
        r := ParseSimpleStyle(index);
      } else if argType == CHOICE {
        r := ParseChoiceStyle(index, nestingLevel);
      } else {
        r := ParsePluralOrSelectStyle(argType, index, nestingLevel);
      }
    }

    /** The number and the separator in front of a choice message. */
    method ParseChoiceHead(numberIndex: nat) returns (r: Outcome<nat>)
      requires numberIndex <= |msg| && Flags()
      modifies this`parts, this`numericValues
      ensures Returns(G().ChoiceHead(numberIndex, |old(numericValues)|), old(parts), r)
    {
      hide HasKind, ValuesOf, Flatten, Grammar.NumberPart;
      ghost var before, doubles := parts, |numericValues|;
      var index := SkipDouble(numberIndex);
      var length := index - numberIndex;
      if length == 0 {
        return Fail(PATTERN_SYNTAX);
      }
      if length > MAX_LENGTH {
        return Fail(INDEX_OUTOFBOUNDS);
      }
      r := ParseDouble(numberIndex, index, true);
      if r.Fail? {
        return;
      }
      ghost var number := G().NumberPart(numberIndex, index, true, doubles).value;
      index := SkipWhiteSpace(index);
      if index == |msg| {
        return Fail(PATTERN_SYNTAX);
      }
      var c := msg[index];
      if !(c == u_pound || c == u_lessThan || c == u_lessOrEqual) {
        return Fail(PATTERN_SYNTAX);
      }
      ghost var middle := parts;
      AddPart(ARG_SELECTOR, index, 1, 0);
      FlattenMore(before, number.items, [Leaf(ARG_SELECTOR, index, 1, 0)], middle, parts);
      r := Ok(index + 1);
    }

    /** The (number, separator, message) triples of a choice style. */
    method ParseChoiceStyle(start: nat, nestingLevel: nat) returns (r: Outcome<nat>)
      requires start <= |msg| && Flags()
      modifies this`parts, this`numericValues, this`hasArgNames, this`hasArgNumbers, this`needsAutoQuoting
      ensures Returns(G().ArgStyle(CHOICE, start, nestingLevel, |old(numericValues)|), old(parts), r)
      decreases |msg| - start, 4
    {
      hide HasKind, ValuesOf, Flatten, Grammar.ChoiceHead, Grammar.Message, Grammar.ChoiceStyle;
      ghost var before, spec := parts, G().ArgStyle(CHOICE, start, nestingLevel, |numericValues|);
      ghost var items: seq<Item> := [];
      var index := SkipWhiteSpace(start);
      if index == |msg| || msg[index] == u_rightCurlyBrace {
        return Fail(PATTERN_SYNTAX);
      }
      FlattenNothing(before);
      PrefixedNothing(spec);
      while true
        invariant start <= index <= |msg| && Added(before, items, |numericValues|)
        invariant spec == PrefixedPiece(items, G().ChoiceStyle(index, nestingLevel, |numericValues|))
        modifies this`parts, this`numericValues, this`hasArgNames, this`hasArgNumbers, this`needsAutoQuoting
        decreases |msg| - index
      {
        ghost var middle, doubles, at := parts, |numericValues|, index;
        ChoiceStep(G(), index, nestingLevel, doubles);
        r := ParseChoiceTriple(index, nestingLevel);
        if r.Fail? {
          return;
        }
        ghost var triple := ChoiceTriple(G(), at, nestingLevel, doubles).value;
        FlattenMore(before, items, triple.items, middle, parts);
        index := r.value;
        if msg[index] == u_rightCurlyBrace {
          break;
        }
        index := SkipWhiteSpace(index + 1);
        PrefixedPieceTwice(items, triple.items, G().ChoiceStyle(index, nestingLevel, |numericValues|));
        items := items + triple.items;
      }
      r := Ok(index);
    }

    /** A number, a separator and a message. */
    method ParseChoiceTriple(start: nat, nestingLevel: nat) returns (r: Outcome<nat>)
      requires start <= |msg| && Flags()
      modifies this`parts, this`numericValues, this`hasArgNames, this`hasArgNumbers, this`needsAutoQuoting
      ensures Returns(ChoiceTriple(G(), start, nestingLevel, |old(numericValues)|), old(parts), r)
      decreases |msg| - start, 3, 1
    {
      hide HasKind, ValuesOf, Flatten, Grammar.ChoiceHead, Grammar.Message;
      ghost var before, g, doubles := parts, G(), |numericValues|;
      r := ParseChoiceHead(start);
      if r.Fail? {
        return;
      }
      ghost var head, middle := g.ChoiceHead(start, doubles).value, parts;
      r := ParseMessage(r.value, 0, nestingLevel + 1, CHOICE);
      if r.Ok? {
        FlattenMore(before, head.items, g.Message(head.next, 0, nestingLevel + 1, CHOICE, head.doubles).value.items, middle, parts);
      }
    }

    /** A selector of a plural or select style, or a plural offset. */
    method ParseSelector(argType: ArgType, selectorIndex: nat, isEmpty: bool)
      returns (r: Outcome<nat>, isSelector: bool, isOther: bool)
      requires selectorIndex < |msg| && Flags()
      modifies this`parts, this`numericValues
      ensures Returns(G().Selector(argType, selectorIndex, isEmpty, |old(numericValues)|), old(parts), r)
      ensures r.Ok? ==> isSelector == G().IsSelector(argType, selectorIndex)
      ensures r.Ok? && isSelector ==> isOther == G().IsOther(argType, selectorIndex)
    {
      hide HasKind, ValuesOf, Flatten, Added;
      isSelector, isOther := true, false;
      if HasPluralStyle(argType) && msg[selectorIndex] == u_equal {
        r := ParseExplicitSelector(selectorIndex, isEmpty, argType);
      } else {
        var index := SkipIdentifier(selectorIndex);
        var length := index - selectorIndex;
        if length == 0 {
          return Fail(PATTERN_SYNTAX), isSelector, isOther;
        }
        if HasPluralStyle(argType) && length == 6 && index < |msg| && msg[selectorIndex..selectorIndex + 7] == kOffsetColon {
          isSelector := false;
          r := ParseOffset(index, isEmpty, argType, selectorIndex);
        } else {
          r := ParseKeyword(selectorIndex, index, isEmpty, argType);
          isOther := msg[selectorIndex..index] == kOther;
        }
      }
    }

    /** A selector which is a keyword. */
    method ParseKeyword(selectorIndex: nat, index: nat, ghost isEmpty: bool, ghost argType: ArgType) returns (r: Outcome<nat>)
      requires selectorIndex < |msg| && Flags() && index == G().SkipIdentifier(selectorIndex) && index > selectorIndex
      requires !(HasPluralStyle(argType) && msg[selectorIndex] == u_equal) && !G().IsOffset(argType, selectorIndex)
      modifies this`parts
      ensures Returns(G().Selector(argType, selectorIndex, isEmpty, |numericValues|), old(parts), r)
    {
      hide HasKind, ValuesOf, Flatten, Grammar.NumberPart, Grammar.IsOffset;
      var length := index - selectorIndex;
      if length > MAX_LENGTH {
        return Fail(INDEX_OUTOFBOUNDS);
      }
      AddPart(ARG_SELECTOR, selectorIndex, length, 0);
      r := Ok(index);
    }

    /** A selector with an explicit value. */
    method ParseExplicitSelector(selectorIndex: nat, ghost isEmpty: bool, ghost argType: ArgType) returns (r: Outcome<nat>)
      requires selectorIndex < |msg| && Flags() && HasPluralStyle(argType) && msg[selectorIndex] == u_equal
      modifies this`parts, this`numericValues
      ensures Returns(G().Selector(argType, selectorIndex, isEmpty, |old(numericValues)|), old(parts), r)
    {
      hide HasKind, ValuesOf, Flatten, Grammar.NumberPart, Grammar.IsOffset;
      ghost var before, g, doubles := parts, G(), |numericValues|;
      var index := SkipDouble(selectorIndex + 1);
      var length := index - selectorIndex;
      if length == 1 {
        return Fail(PATTERN_SYNTAX);
      }
      if length > MAX_LENGTH {
        return Fail(INDEX_OUTOFBOUNDS);
      }
      AddPart(ARG_SELECTOR, selectorIndex, length, 0);
      ghost var middle := parts;
      r := ParseDouble(selectorIndex + 1, index, false);
      if r.Ok? {
        FlattenMore(before, [Leaf(ARG_SELECTOR, selectorIndex, length, 0)],
                    g.NumberPart(selectorIndex + 1, index, false, doubles).value.items, middle, parts);
      }
    }

    /** The value of a plural offset, after its colon. */
    method ParseOffset(colon: nat, isEmpty: bool, ghost argType: ArgType, ghost selectorIndex: nat) returns (r: Outcome<nat>)
      requires selectorIndex < colon < |msg| && Flags() && colon == G().SkipIdentifier(selectorIndex)
      requires G().IsOffset(argType, selectorIndex) && !(HasPluralStyle(argType) && msg[selectorIndex] == u_equal)
      modifies this`parts, this`numericValues
      ensures Returns(G().Selector(argType, selectorIndex, isEmpty, |old(numericValues)|), old(parts), r)
    {
      hide HasKind, ValuesOf, Flatten, Grammar.NumberPart, Grammar.IsOffset;
      if !isEmpty {
        return Fail(PATTERN_SYNTAX);
      }
      var valueIndex := SkipWhiteSpace(colon + 1);
      var index := SkipDouble(valueIndex);
      if index == valueIndex {
        return Fail(PATTERN_SYNTAX);
      }
      if index - valueIndex > MAX_LENGTH {
        return Fail(INDEX_OUTOFBOUNDS);
      }
      r := ParseDouble(valueIndex, index, false);
    }

    /** A selector and its message, or a plural offset. */
    method ParsePluralPair(argType: ArgType, start: nat, nestingLevel: nat, isEmpty: bool)
      returns (r: Outcome<nat>, isOther: bool)
      requires start < |msg| && Flags() && argType != NONE
      modifies this`parts, this`numericValues, this`hasArgNames, this`hasArgNumbers, this`needsAutoQuoting
      ensures Returns(PluralPair(G(), argType, start, nestingLevel, isEmpty, |old(numericValues)|), old(parts), r)
      ensures r.Ok? ==> isOther == (G().IsSelector(argType, start) && G().IsOther(argType, start))
      decreases |msg| - start, 3, 1
    {
      hide HasKind, ValuesOf, Flatten, Grammar.Selector, Grammar.Message, Grammar.IsSelector, Grammar.IsOther;
      ghost var before, g, doubles := parts, G(), |numericValues|;
      var isSelector;
      r, isSelector, isOther := ParseSelector(argType, start, isEmpty);
      if r.Fail? {
        return;
      }
      if !isSelector {
        isOther := false;
        return;
      }
      ghost var head, middle := g.Selector(argType, start, isEmpty, doubles).value, parts;
      var index := SkipWhiteSpace(r.value);
      if index == |msg| || msg[index] != u_leftCurlyBrace {
        r := Fail(PATTERN_SYNTAX);
        return;
      }
      r := ParseMessage(index, 1, nestingLevel + 1, argType);
      if r.Ok? {
        FlattenMore(before, head.items, g.Message(index, 1, nestingLevel + 1, argType, head.doubles).value.items, middle, parts);
      }
    }

    /** The (selector, message) pairs of a plural or select style. */
    method ParsePluralOrSelectStyle(argType: ArgType, start: nat, nestingLevel: nat) returns (r: Outcome<nat>)
      requires start <= |msg| && Flags() && argType in {PLURAL, SELECT, SELECTORDINAL}
      modifies this`parts, this`numericValues, this`hasArgNames, this`hasArgNumbers, this`needsAutoQuoting
      ensures Returns(G().PluralOrSelectStyle(argType, start, nestingLevel, true, false, |old(numericValues)|), old(parts), r)
      decreases |msg| - start, 4
    {
      hide HasKind, ValuesOf, Flatten, Grammar.PluralOrSelectStyle, PluralPair, Grammar.IsSelector, Grammar.IsOther;
      ghost var before, g := parts, G();
      ghost var spec := g.PluralOrSelectStyle(argType, start, nestingLevel, true, false, |numericValues|);
      ghost var items: seq<Item> := [];
      var isEmpty, hasOther, index := true, false, start;
      FlattenNothing(before);
      PrefixedNothing(spec);
      while true
        invariant start <= index <= |msg| && Added(before, items, |numericValues|)
        invariant spec == PrefixedPiece(items,
                            g.PluralOrSelectStyle(argType, index, nestingLevel, isEmpty, hasOther, |numericValues|))
        modifies this`parts, this`numericValues, this`hasArgNames, this`hasArgNumbers, this`needsAutoQuoting
        decreases |msg| - index
      {
        ghost var middle, doubles := parts, |numericValues|;
        PluralStep(g, argType, index, nestingLevel, isEmpty, hasOther, doubles);
        index := SkipWhiteSpace(index);
        if index == |msg| {
          return Fail(PATTERN_SYNTAX);
        }
        if msg[index] == u_rightCurlyBrace {
          if !hasOther {
            return Fail(DEFAULT_KEYWORD_MISSING);
          }
          PrefixedEnd(items, index, doubles);
          break;
        }
        ghost var pair := PluralPair(g, argType, index, nestingLevel, isEmpty, doubles);
        var isOther;
        r, isOther := ParsePluralPair(argType, index, nestingLevel, isEmpty);
        if r.Fail? {
          return;
        }
        index := r.value;
        isEmpty := false;
        hasOther := hasOther || isOther;
        FlattenMore(before, items, pair.value.items, middle, parts);
        PrefixedPieceTwice(items, pair.value.items,
                           g.PluralOrSelectStyle(argType, index, nestingLevel, false, hasOther, |numericValues|));
        items := items + pair.value.items;
      }
      r := Ok(index);
    }

    /** A message, up to its terminator or the end of the pattern. */
    method ParseMessage(start: nat, msgStartLength: nat, nestingLevel: nat, parentType: ArgType) returns (r: Outcome<nat>)
      requires start + msgStartLength <= |msg| && Flags()
      modifies this`parts, this`numericValues, this`hasArgNames, this`hasArgNumbers, this`needsAutoQuoting
      ensures Returns(G().Message(start, msgStartLength, nestingLevel, parentType, |old(numericValues)|), old(parts), r)
      decreases |msg| - start, 3
    {
      hide HasKind, ValuesOf, Flatten, Grammar.MessageBody;
      if nestingLevel > MAX_VALUE {
        return Fail(INDEX_OUTOFBOUNDS);
      }
      ghost var before, doubles, open := parts, |numericValues|, Part(MSG_START, start, msgStartLength, nestingLevel, 0);
      var msgStart := |parts|;
      AddPart(MSG_START, start, msgStartLength, nestingLevel);
      var limitIndex, limitLength;
      r, limitIndex, limitLength := ParseBody(start + msgStartLength, nestingLevel, parentType);
      if r.Ok? {
        ghost var body := G().MessageBody(start + msgStartLength, nestingLevel, parentType, doubles).value;
        ghost var inside := parts;
        AddLimitPart(msgStart, MSG_LIMIT, limitIndex, limitLength, nestingLevel);
        FlattenGroup(before, true, start, msgStartLength, nestingLevel, body.items, limitIndex, limitLength, inside, parts);
      }
    }

    /** The inside of a message, and where and how it ends. */
    method ParseBody(start: nat, nestingLevel: nat, parentType: ArgType)
      returns (r: Outcome<nat>, limitIndex: nat, limitLength: nat)
      requires start <= |msg| && Flags()
      modifies this`parts, this`numericValues, this`hasArgNames, this`hasArgNumbers, this`needsAutoQuoting
      ensures var spec := G().MessageBody(start, nestingLevel, parentType, |old(numericValues)|);
        if spec.Fail? then r == Fail(spec.error)
        else
          && r == Ok(spec.value.next) && limitIndex == spec.value.limitIndex && limitLength == spec.value.limitLength
          && Added(old(parts), spec.value.items, spec.value.doubles)
      decreases |msg| - start, 2
    {
      hide HasKind, ValuesOf, Flatten, Grammar.MessageBody, BodyItem;
      ghost var before, g := parts, G();
      ghost var spec := g.MessageBody(start, nestingLevel, parentType, |numericValues|);
      ghost var items: seq<Item> := [];
      var index := start;
      limitIndex, limitLength := 0, 0;
      FlattenNothing(before);
      PrefixedBodyNothing(spec);
      while index < |msg|
        invariant start <= index <= |msg| && Added(before, items, |numericValues|)
        invariant spec == Prefixed(items, g.MessageBody(index, nestingLevel, parentType, |numericValues|))
        modifies this`parts, this`numericValues, this`hasArgNames, this`hasArgNumbers, this`needsAutoQuoting
      {
        ghost var middle, doubles, at := parts, |numericValues|, index;
        BodyStep(g, index, nestingLevel, parentType, doubles);
        var c := msg[index];
        if c != u_leftCurlyBrace && ((nestingLevel > 0 && c == u_rightCurlyBrace) || (parentType == CHOICE && c == u_pipe)) {
          limitIndex := index;
          limitLength := if parentType == CHOICE && c == u_rightCurlyBrace then 0 else 1;
          PrefixedBodyEnd(items, g.MessageBody(index, nestingLevel, parentType, doubles));
          r := Ok(if parentType == CHOICE then index else index + 1);
          return;
        }
        r := ParseItem(index, nestingLevel, parentType);
        if r.Fail? {
          return;
        }
        index := r.value;
        ghost var more := BodyItem(g, at, nestingLevel, parentType, doubles).value.items;
        FlattenMore(before, items, more, middle, parts);
        PrefixedTwice(items, more, g.MessageBody(index, nestingLevel, parentType, |numericValues|));
        items := items + more;
      }
      BodyStep(g, index, nestingLevel, parentType, |numericValues|);
      if nestingLevel > 0 {
        return Fail(UNMATCHED_BRACES), limitIndex, limitLength;
      }
      limitIndex := index;
      PrefixedBodyEnd(items, g.MessageBody(index, nestingLevel, parentType, |numericValues|));
      r := Ok(index);
    }

    /** An argument, or some text. */
    method ParseItem(index: nat, nestingLevel: nat, parentType: ArgType) returns (r: Outcome<nat>)
      requires index < |msg| && Flags()
      modifies this`parts, this`numericValues, this`hasArgNames, this`hasArgNumbers, this`needsAutoQuoting
      ensures Returns(BodyItem(G(), index, nestingLevel, parentType, |old(numericValues)|), old(parts), r)
      decreases |msg| - index, 1, 1
    {
      hide HasKind, ValuesOf, Flatten, Grammar.Argument, Grammar.Text;
      if msg[index] == u_leftCurlyBrace {
        r := ParseArg(index, nestingLevel);
      } else {
        var next := ParseText(index, parentType);
        r := Ok(next);
      }
    }

    /** Parses a whole pattern. */
    method Parse(pattern: seq<Unit>) returns (error: Outcome<nat>)
      modifies this
      ensures msg == pattern
      ensures var spec := G().Pattern();
        if spec.Fail? then error == Fail(spec.error)
        else error.Ok? && Flags() && parts == Flatten(spec.value.items, 0)
      ensures error.Ok? ==>
                && WellBracketed(parts, 0) && Ordered(parts, 0, |msg|) && |parts| >= 2
                && parts[0] == Part(MSG_START, 0, 0, 0, |parts| - 1)
                && parts[|parts| - 1] == Part(MSG_LIMIT, |msg|, 0, 0, 0)
    {
      hide HasKind, ValuesOf, Flatten, Grammar.Message, WellBracketed, Ordered;
      msg := pattern;
      hasArgNames, hasArgNumbers, needsAutoQuoting := false, false, false;
      parts, numericValues := [], [];
      NoKinds();
      NoValues(msg);
      error := ParseMessage(0, 0, 0, NONE);
      if error.Ok? {
        PatternParts(G());
      }
    }

    /** The numeric value of a part: an integer, the text of another number, or none. */
    function NumericValue(part: Part): (v: Numeric)
      requires Flags() && part in parts
      reads this
      ensures part.kind == ARG_INT ==> v == IntValue(part.value)
      ensures part.kind == ARG_DOUBLE ==>
                part.index + part.length <= |msg| && v == DoubleValue(msg[part.index..part.index + part.length])
      ensures part.kind != ARG_INT && part.kind != ARG_DOUBLE ==> v == NoNumericValue
    {
      if part.kind == ARG_INT then IntValue(part.value)
      else if part.kind == ARG_DOUBLE then
        ValueAt(parts, part, numericValues, msg);
        DoubleValue(numericValues[part.value])
      else NoNumericValue
    }

    /** The offset of a plural argument, whose style starts with this part. */
    function PluralOffset(pluralStart: nat): (v: Numeric)
      requires Flags() && pluralStart < |parts|
      reads this
      ensures var part := parts[pluralStart];
        && (part.kind == ARG_DOUBLE ==>
              part.index + part.length <= |msg| && v == DoubleValue(msg[part.index..part.index + part.length]))
        && (part.kind != ARG_DOUBLE ==> v == IntValue(if part.kind == ARG_INT then part.value else 0))
    {
      var part := parts[pluralStart];
      if part.kind == ARG_INT || part.kind == ARG_DOUBLE then NumericValue(part) else IntValue(0)
    }

    /** Inserts the missing apostrophes, the last one first so that the other indexes do not change. */
    method AutoQuoteApostropheDeep() returns (modified: seq<Unit>)
      requires G().Pattern().Ok? && Flags() && parts == Flatten(G().Pattern().value.items, 0)
      ensures modified == AutoQuoted(G(), doubleRequired).msg
    {
      hide HasKind, ValuesOf, Flatten, Mu, Inserted, InsertList, PartInserts, Between, Elements, Grammar.Message;
      ghost var list := InsertList(G().Pattern().value.items);
      MessageInserts.MessageInserts(G(), 0, 0, 0, NONE, 0);
      FlattenInserts(G().Pattern().value.items, 0);
      NothingToInsert(msg, parts);
      if !needsAutoQuoting {
        return msg;
      }
      modified := msg;
      var i := |parts|;
      while i > 0
        invariant 0 <= i <= |parts| && modified == Inserted(msg, Elements(PartInserts(parts[i..])), |msg|)
      {
        NextInsert(msg, parts, i, G().Pattern().value.next);
        i := i - 1;
        if parts[i].kind == INSERT_CHAR {
          modified := modified[..parts[i].index] + [u_apos] + modified[parts[i].index..];
        }
      }
      assert parts[0..] == parts;
    }
  }

  /** No part of this kind, no insertions. */
  lemma {:induction false} NoKindInserts(parts: seq<Part>)
    requires !HasKind(parts, INSERT_CHAR)
    ensures PartInserts(parts) == []
  {
    if parts != [] {
      assert parts[0].kind != INSERT_CHAR;
      assert forall k :: 0 <= k < |parts| - 1 ==> parts[1..][k] == parts[k + 1];
      NoKindInserts(parts[1..]);
    }
  }

  lemma NothingToInsert(msg: seq<Unit>, parts: seq<Part>)
    ensures !HasKind(parts, INSERT_CHAR) ==> Inserted(msg, Elements(PartInserts(parts)), |msg|) == msg
    ensures Inserted(msg, Elements(PartInserts(parts[|parts|..])), |msg|) == msg
  {
    hide Inserted;
    assert parts[|parts|..] == [];
    assert Elements([]) == {};
    InsertedNothing(msg, |msg|);
    assert msg[..|msg|] == msg;
    if !HasKind(parts, INSERT_CHAR) {
      NoKindInserts(parts);
    }
  }

  lemma NoKinds()
    ensures forall k :: !HasKind([], k)
  {
  }

  /** An argument, or some text which does not end the message. */
  ghost function BodyItem(g: Grammar, i: nat, nesting: nat, parent: ArgType, doubles: nat): (r: Outcome<Piece>)
    requires i < |g.msg|
    ensures r.Ok? ==> i < r.value.next <= |g.msg|
  {
    if g.msg[i] == u_leftCurlyBrace then g.Argument(i, nesting, doubles)
    else Ok(Piece(g.Text(i, parent).0, g.Text(i, parent).1, doubles))
  }

  lemma BodyStep(g: Grammar, i: nat, nesting: nat, parent: ArgType, doubles: nat)
    requires i <= |g.msg|
    ensures g.MessageBody(i, nesting, parent, doubles) ==
      (if i == |g.msg| then
         if nesting > 0 then Fail(UNMATCHED_BRACES) else Ok(Body([], i, 0, i, doubles))
       else if g.msg[i] != u_leftCurlyBrace && g.EndsMessage(i, nesting, parent) then
         Ok(if parent == CHOICE then Body([], i, if g.msg[i] == u_rightCurlyBrace then 0 else 1, i, doubles)
            else Body([], i, 1, i + 1, doubles))
       else
         var first := BodyItem(g, i, nesting, parent, doubles);
         if first.Fail? then Fail(first.error)
         else Prefixed(first.value.items, g.MessageBody(first.value.next, nesting, parent, first.value.doubles)))
  {
  }

  lemma PrefixedBodyNothing(spec: Outcome<Body>)
    ensures Prefixed([], spec) == spec
  {
    if spec.Ok? {
      assert [] + spec.value.items == spec.value.items;
    }
  }

  lemma PrefixedBodyEnd(items: seq<Item>, spec: Outcome<Body>)
    requires spec.Ok? && spec.value.items == []
    ensures Prefixed(items, spec).Ok? && Prefixed(items, spec).value == spec.value.(items := items)
  {
    assert items + [] == items;
  }

  lemma PrefixedEnd(items: seq<Item>, next: nat, doubles: nat)
    ensures PrefixedPiece(items, Ok(Piece([], next, doubles))) == Ok(Piece(items, next, doubles))
  {
    assert items + [] == items;
  }

  /** A selector and its message, or a plural offset. */
  ghost function PluralPair(g: Grammar, argType: ArgType, i: nat, nesting: nat, isEmpty: bool, doubles: nat):
      (r: Outcome<Piece>)
    requires i < |g.msg|
    ensures r.Ok? ==> i < r.value.next <= |g.msg|
  {
    match g.Selector(argType, i, isEmpty, doubles)
    case Fail(e) => Fail(e)
    case Ok(head) =>
      if !g.IsSelector(argType, i) then Ok(head)
      else
        var k := g.SkipWhiteSpace(head.next);
        if k == |g.msg| || g.msg[k] != u_leftCurlyBrace then Fail(PATTERN_SYNTAX)
        else PrefixedPiece(head.items, g.Message(k, 1, nesting + 1, argType, head.doubles))
  }

  lemma PluralStep(g: Grammar, argType: ArgType, i: nat, nesting: nat, isEmpty: bool, hasOther: bool, doubles: nat)
    requires i <= |g.msg|
    ensures g.PluralOrSelectStyle(argType, i, nesting, isEmpty, hasOther, doubles) ==
      var j := g.SkipWhiteSpace(i);
      if j == |g.msg| then Fail(PATTERN_SYNTAX)
      else if g.msg[j] == u_rightCurlyBrace then
        if hasOther then Ok(Piece([], j, doubles)) else Fail(DEFAULT_KEYWORD_MISSING)
      else
        var pair := PluralPair(g, argType, j, nesting, isEmpty, doubles);
        if pair.Fail? then Fail(pair.error)
        else
          PrefixedPiece(pair.value.items,
            g.PluralOrSelectStyle(argType, pair.value.next, nesting, false,
                                  hasOther || (g.IsSelector(argType, j) && g.IsOther(argType, j)), pair.value.doubles))
  {
  }

  /** A number, a separator and a message of a choice style. */
  ghost function ChoiceTriple(g: Grammar, i: nat, nesting: nat, doubles: nat): (r: Outcome<Piece>)
    requires i <= |g.msg|
    ensures r.Ok? ==> i < r.value.next < |g.msg|
  {
    match g.ChoiceHead(i, doubles)
    case Fail(e) => Fail(e)
    case Ok(head) => PrefixedPiece(head.items, g.Message(head.next, 0, nesting + 1, CHOICE, head.doubles))
  }

  lemma ChoiceStep(g: Grammar, i: nat, nesting: nat, doubles: nat)
    requires i <= |g.msg|
    ensures g.ChoiceStyle(i, nesting, doubles) ==
      match ChoiceTriple(g, i, nesting, doubles)
      case Fail(e) => Fail(e)
      case Ok(triple) =>
        if g.msg[triple.next] == u_rightCurlyBrace then Ok(triple)
        else PrefixedPiece(triple.items, g.ChoiceStyle(g.SkipWhiteSpace(triple.next + 1), nesting, triple.doubles))
  {
  }

  lemma PrefixedNothing(spec: Outcome<Piece>)
    ensures PrefixedPiece([], spec) == spec
  {
    if spec.Ok? {
      assert [] + spec.value.items == spec.value.items;
    }
  }

  lemma Replaced(before: seq<Part>, open: Part, open1: Part, rest: seq<Part>)
    ensures (before + [open] + rest)[|before|] == open
    ensures (before + [open] + rest)[|before| := open1] == before + [open1] + rest
  {
  }

  lemma KindsChanged(parts: seq<Part>, start: nat, value: int)
    requires start < |parts|
    ensures forall k :: HasKind(parts[start := parts[start].(value := value)], k) == HasKind(parts, k)
  {
    forall k
      ensures HasKind(parts[start := parts[start].(value := value)], k) == HasKind(parts, k)
    {
      KindChanged(parts, start, value, k);
    }
  }
}
