/** What a message pattern means: its tree of parts, or the error. */
module MessageGrammar {
  import opened Utf16
  import opened MessageParts

  const u_pound: Unit := 0x23
  const u_apos: Unit := 0x27
  const u_plus: Unit := 0x2b
  const u_comma: Unit := 0x2c
  const u_minus: Unit := 0x2d
  const u_dot: Unit := 0x2e
  const u_lessThan: Unit := 0x3c
  const u_equal: Unit := 0x3d
  const u_leftCurlyBrace: Unit := 0x7b
  const u_pipe: Unit := 0x7c
  const u_rightCurlyBrace: Unit := 0x7d
  const u_lessOrEqual: Unit := 0x2264
  const u_infinity: Unit := 0x221e

  const kOffsetColon: seq<Unit> := [0x6f, 0x66, 0x66, 0x73, 0x65, 0x74, 0x3a]
  const kOther: seq<Unit> := [0x6f, 0x74, 0x68, 0x65, 0x72]
  const kChoice: seq<Unit> := [0x63, 0x68, 0x6f, 0x69, 0x63, 0x65]
  const kPlural: seq<Unit> := [0x70, 0x6c, 0x75, 0x72, 0x61, 0x6c]
  const kSelect: seq<Unit> := [0x73, 0x65, 0x6c, 0x65, 0x63, 0x74]
  const kOrdinal: seq<Unit> := [0x6f, 0x72, 0x64, 0x69, 0x6e, 0x61, 0x6c]

  datatype ErrorCode = INDEX_OUTOFBOUNDS | UNMATCHED_BRACES | PATTERN_SYNTAX | DEFAULT_KEYWORD_MISSING

  datatype Outcome<T> = Ok(value: T) | Fail(error: ErrorCode)

  datatype ArgType = NONE | SIMPLE | CHOICE | PLURAL | SELECT | SELECTORDINAL

  function Code(t: ArgType): int {
    match t
    case NONE => 0
    case SIMPLE => 1
    case CHOICE => 2
    case PLURAL => 3
    case SELECT => 4
    case SELECTORDINAL => 5
  }

  predicate HasPluralStyle(t: ArgType) {
    t == PLURAL || t == SELECTORDINAL
  }

  /** Is s this lower-case word, when ASCII letters are compared without case? */
  predicate IsWord(s: seq<Unit>, word: seq<Unit>) {
    |s| == |word| && forall k :: 0 <= k < |s| ==> s[k] == word[k] || s[k] as int == word[k] as int - 0x20
  }

  function TypeOf(s: seq<Unit>): ArgType {
    if IsWord(s, kChoice) then CHOICE
    else if IsWord(s, kPlural) then PLURAL
    else if IsWord(s, kSelect) then SELECT
    else if |s| == 13 && IsWord(s[..6], kSelect) && IsWord(s[6..], kOrdinal) then SELECTORDINAL
    else SIMPLE
  }

  predicate IsDigit(c: Unit) {
    0x30 <= c <= 0x39
  }

  predicate IsArgTypeChar(c: Unit) {
    0x61 <= c <= 0x7a || 0x41 <= c <= 0x5a
  }

  predicate IsDoubleChar(c: Unit) {
    !((c < 0x30 && c != u_plus && c != u_minus && c != u_dot) || (c > 0x39 && c != 0x65 && c != 0x45 && c != u_infinity))
  }

  const ARG_NAME_NOT_NUMBER := -1
  const ARG_NAME_NOT_VALID := -2
  const INT32_MAX := 0x7fff_ffff

  /** The digits from k on, after the number so far; a number which is bad or too large is not valid. */
  function ArgDigits(s: seq<Unit>, k: nat, number: nat, bad: bool): (r: int)
    requires k <= |s|
    ensures r >= -2
    decreases |s| - k
  {
    if k == |s| then if bad then ARG_NAME_NOT_VALID else number
    else if IsDigit(s[k]) then
      ArgDigits(s, k + 1, number * 10 + (s[k] as int - 0x30), bad || number >= INT32_MAX / 10)
    else ARG_NAME_NOT_NUMBER
  }

  /** The argument number s, or whether it is an argument name. */
  function ArgNumber(s: seq<Unit>): (r: int)
    ensures r >= -2
  {
    if s == [] then ARG_NAME_NOT_VALID
    else if s[0] == 0x30 then if |s| == 1 then 0 else ArgDigits(s, 1, 0, true)
    else if IsDigit(s[0]) then ArgDigits(s, 1, s[0] as int - 0x30, false)
    else ARG_NAME_NOT_NUMBER
  }

  datatype Number = BadNumber | SmallInt(value: int) | DoubleNumber

  /** A piece of the pattern: its items, where it ends, and the number of double values so far. */
  datatype Piece = Piece(items: seq<Item>, next: nat, doubles: nat)

  /** The inside of a message: its items, and its end. */
  datatype Body = Body(items: seq<Item>, limitIndex: nat, limitLength: nat, next: nat, doubles: nat)

  /** The start of an argument, up to its closing brace or the comma before its style. */
  datatype Head = Head(items: seq<Item>, argType: ArgType, comma: bool, next: nat)

  datatype Grammar = Grammar(
    msg: seq<Unit>, doubleRequired: bool, whiteSpace: set<Unit>, syntaxOrWhiteSpace: set<Unit>,
    parsesAsDouble: seq<Unit> -> bool)
  {
    function SkipWhiteSpace(i: nat): (j: nat)
      requires i <= |msg|
      ensures i <= j <= |msg|
      decreases |msg| - i
    {
      if i < |msg| && msg[i] in whiteSpace then SkipWhiteSpace(i + 1) else i
    }

    function SkipIdentifier(i: nat): (j: nat)
      requires i <= |msg|
      ensures i <= j <= |msg|
      decreases |msg| - i
    {
      if i < |msg| && msg[i] !in syntaxOrWhiteSpace then SkipIdentifier(i + 1) else i
    }

    function SkipDouble(i: nat): (j: nat)
      requires i <= |msg|
      ensures i <= j <= |msg|
      decreases |msg| - i
    {
      if i < |msg| && IsDoubleChar(msg[i]) then SkipDouble(i + 1) else i
    }

    function SkipArgType(i: nat): (j: nat)
      requires i <= |msg|
      ensures i <= j <= |msg|
      decreases |msg| - i
    {
      if i < |msg| && IsArgTypeChar(msg[i]) then SkipArgType(i + 1) else i
    }

    /** The index of c from i on, or the length of the pattern. */
    function IndexOf(c: Unit, i: nat): (j: nat)
      requires i <= |msg|
      ensures i <= j <= |msg| && (j < |msg| ==> msg[j] == c)
      decreases |msg| - i
    {
      if i < |msg| && msg[i] != c then IndexOf(c, i + 1) else i
    }

    /** Quoted text which goes on at i. */
    function Quoted(i: nat): (r: (seq<Item>, nat))
      requires i <= |msg|
      ensures i <= r.1 <= |msg|
      decreases |msg| - i
    {
      var q := IndexOf(u_apos, i);
      if q == |msg| then ([Leaf(INSERT_CHAR, q, 0, u_apos as int)], q)
      else if q + 1 < |msg| && msg[q + 1] == u_apos then
        var (items, next) := Quoted(q + 2);
        ([Leaf(SKIP_SYNTAX, q + 1, 1, 0)] + items, next)
      else ([Leaf(SKIP_SYNTAX, q, 1, 0)], q + 1)
    }

    /** Does the character after an apostrophe make it start quoted text? */
    predicate StartsQuote(c: Unit, parent: ArgType) {
      || doubleRequired || c == u_leftCurlyBrace || c == u_rightCurlyBrace
      || (parent == CHOICE && c == u_pipe) || (HasPluralStyle(parent) && c == u_pound)
    }

    /** An apostrophe at i: doubled, or the start of quoted text, or literal. */
    function Apostrophe(i: nat, parent: ArgType): (r: (seq<Item>, nat))
      requires i < |msg|
      ensures i < r.1 <= |msg|
    {
      if i + 1 < |msg| && msg[i + 1] == u_apos then ([Leaf(SKIP_SYNTAX, i + 1, 1, 0)], i + 2)
      else if i + 1 < |msg| && StartsQuote(msg[i + 1], parent) then
        var (items, next) := Quoted(i + 2);
        ([Leaf(SKIP_SYNTAX, i, 1, 0)] + items, next)
      else ([Leaf(INSERT_CHAR, i + 1, 0, u_apos as int)], i + 1)
    }

    /** Text at i which is no argument and no end of the message. */
    function Text(i: nat, parent: ArgType): (r: (seq<Item>, nat))
      requires i < |msg|
      ensures i < r.1 <= |msg|
    {
      if msg[i] == u_apos then Apostrophe(i, parent)
      else if HasPluralStyle(parent) && msg[i] == u_pound then ([Leaf(REPLACE_NUMBER, i, 1, 0)], i + 1)
      else ([], i + 1)
    }

    predicate EndsMessage(i: nat, nesting: nat, parent: ArgType)
      requires i < |msg|
    {
      (nesting > 0 && msg[i] == u_rightCurlyBrace) || (parent == CHOICE && msg[i] == u_pipe)
    }

    /** The inside of a message from i on. */
    function MessageBody(i: nat, nesting: nat, parent: ArgType, doubles: nat): (r: Outcome<Body>)
      requires i <= |msg|
      ensures r.Ok? ==> i <= r.value.limitIndex <= r.value.next <= |msg|
      ensures r.Ok? && parent == CHOICE && nesting > 0 ==> r.value.next < |msg|
      decreases |msg| - i, 2
    {
      if i == |msg| then
        if nesting > 0 then Fail(UNMATCHED_BRACES) else Ok(Body([], i, 0, i, doubles))
      else if msg[i] == u_leftCurlyBrace then
        match Argument(i, nesting, doubles)
        case Fail(e) => Fail(e)
        case Ok(first) => Prefixed(first.items, MessageBody(first.next, nesting, parent, first.doubles))
      else if EndsMessage(i, nesting, parent) then
        Ok(if parent == CHOICE then Body([], i, if msg[i] == u_rightCurlyBrace then 0 else 1, i, doubles)
           else Body([], i, 1, i + 1, doubles))
      else
        var (items, next) := Text(i, parent);
        Prefixed(items, MessageBody(next, nesting, parent, doubles))
    }

    /** A message whose start syntax has this length. */
    function Message(i: nat, startLength: nat, nesting: nat, parent: ArgType, doubles: nat): (r: Outcome<Piece>)
      requires i + startLength <= |msg|
      ensures r.Ok? ==> i + startLength <= r.value.next <= |msg| && |r.value.items| == 1
      ensures r.Ok? && parent == CHOICE && nesting > 0 ==> r.value.next < |msg|
      decreases |msg| - i, 3
    {
      if nesting > MAX_VALUE then Fail(INDEX_OUTOFBOUNDS)
      else
        match MessageBody(i + startLength, nesting, parent, doubles)
        case Fail(e) => Fail(e)
        case Ok(b) => Ok(Piece([Group(true, i, startLength, nesting, b.items, b.limitIndex, b.limitLength)], b.next, b.doubles))
    }

    /** The name and the type of an argument, after its opening brace. */
    function ArgHead(i: nat): (r: Outcome<Head>)
      requires i <= |msg|
      ensures r.Ok? ==> i <= r.value.next <= |msg|
      ensures r.Ok? && !r.value.comma ==> r.value.next < |msg| && r.value.argType in {NONE, SIMPLE}
      ensures r.Ok? && r.value.comma ==> i < r.value.next && r.value.argType != NONE
    {
      var nameIndex := SkipWhiteSpace(i);
      if nameIndex == |msg| then Fail(UNMATCHED_BRACES)
      else
        match ArgName(nameIndex)
        case Fail(e) => Fail(e)
        case Ok(name) =>
          var j := SkipWhiteSpace(name.next);
          if j == |msg| then Fail(UNMATCHED_BRACES)
          else if msg[j] == u_rightCurlyBrace then Ok(Head(name.items, NONE, false, j))
          else if msg[j] != u_comma then Fail(PATTERN_SYNTAX)
          else ArgTypeName(name.items, j + 1)
    }

    function ArgName(i: nat): (r: Outcome<Piece>)
      requires i <= |msg|
      ensures r.Ok? ==> i <= r.value.next <= |msg|
    {
      var j := SkipIdentifier(i);
      var number := ArgNumber(msg[i..j]);
      if number >= 0 then
        if j - i > MAX_LENGTH || number > MAX_VALUE then Fail(INDEX_OUTOFBOUNDS)
        else Ok(Piece([Leaf(ARG_NUMBER, i, j - i, number)], j, 0))
      else if number == ARG_NAME_NOT_NUMBER then
        if j - i > MAX_LENGTH then Fail(INDEX_OUTOFBOUNDS) else Ok(Piece([Leaf(ARG_NAME, i, j - i, 0)], j, 0))
      else Fail(PATTERN_SYNTAX)
    }

    function ArgTypeName(items: seq<Item>, i: nat): (r: Outcome<Head>)
      requires i <= |msg|
      ensures r.Ok? ==> i <= r.value.next <= |msg|
      ensures r.Ok? && !r.value.comma ==> r.value.next < |msg| && r.value.argType in {NONE, SIMPLE}
      ensures r.Ok? && r.value.comma ==> i < r.value.next && r.value.argType != NONE
    {
      var typeIndex := SkipWhiteSpace(i);
      var j := SkipArgType(typeIndex);
      var k := SkipWhiteSpace(j);
      if k == |msg| then Fail(UNMATCHED_BRACES)
      else if j == typeIndex || (msg[k] != u_comma && msg[k] != u_rightCurlyBrace) then Fail(PATTERN_SYNTAX)
      else if j - typeIndex > MAX_LENGTH then Fail(INDEX_OUTOFBOUNDS)
      else
        var argType := TypeOf(msg[typeIndex..j]);
        var all := if argType == SIMPLE then items + [Leaf(ARG_TYPE, typeIndex, j - typeIndex, 0)] else items;
        if msg[k] == u_comma then Ok(Head(all, argType, true, k + 1))
        else if argType != SIMPLE then Fail(PATTERN_SYNTAX)
        else Ok(Head(all, argType, false, k))
    }

    /** An argument with its opening brace at i. */
    function Argument(i: nat, nesting: nat, doubles: nat): (r: Outcome<Piece>)
      requires i < |msg|
      ensures r.Ok? ==> i < r.value.next <= |msg|
      decreases |msg| - i, 1
    {
      match ArgHead(i + 1)
      case Fail(e) => Fail(e)
      case Ok(head) =>
        if !head.comma then
          Ok(Piece([Group(false, i, 1, Code(head.argType), head.items, head.next, 1)], head.next + 1, doubles))
        else
          match ArgStyle(head.argType, head.next, nesting, doubles)
          case Fail(e) => Fail(e)
          case Ok(style) =>
            Ok(Piece([Group(false, i, 1, Code(head.argType), head.items + style.items, style.next, 1)],
                     style.next + 1, style.doubles))
    }

    /** The style of an argument, up to the closing brace. */
    function ArgStyle(argType: ArgType, i: nat, nesting: nat, doubles: nat): (r: Outcome<Piece>)
      requires i <= |msg| && argType != NONE
      ensures r.Ok? ==> i <= r.value.next < |msg|
      decreases |msg| - i, 5
    {
      if argType == SIMPLE then
        match SimpleStyle(i, i, 0)
        case Fail(e) => Fail(e)
        case Ok(j) => Ok(Piece([Leaf(ARG_STYLE, i, j - i, 0)], j, doubles))
      else if argType == CHOICE then
        var j := SkipWhiteSpace(i);
        if j == |msg| || msg[j] == u_rightCurlyBrace then Fail(PATTERN_SYNTAX)
        else ChoiceStyle(j, nesting, doubles)
      else PluralOrSelectStyle(argType, i, nesting, true, false, doubles)
    }

    /** The closing brace after a simple style. */
    function SimpleStyle(i: nat, start: nat, nestedBraces: nat): (r: Outcome<nat>)
      requires start <= i <= |msg|
      ensures r.Ok? ==> i <= r.value < |msg|
      decreases |msg| - i
    {
      if i == |msg| then Fail(UNMATCHED_BRACES)
      else if msg[i] == u_apos then
        var q := IndexOf(u_apos, i + 1);
        if q == |msg| then Fail(PATTERN_SYNTAX) else SimpleStyle(q + 1, start, nestedBraces)
      else if msg[i] == u_leftCurlyBrace then SimpleStyle(i + 1, start, nestedBraces + 1)
      else if msg[i] == u_rightCurlyBrace then
        if nestedBraces > 0 then SimpleStyle(i + 1, start, nestedBraces - 1)
        else if i - start > MAX_LENGTH then Fail(INDEX_OUTOFBOUNDS)
        else Ok(i)
      else SimpleStyle(i + 1, start, nestedBraces)
    }

    /** The number from start to limit, after its sign. */
    function SmallNumber(k: nat, limit: nat, value: nat, negative: nat): (r: Number)
      requires k <= limit <= |msg|
      decreases limit - k
    {
      if k == limit then SmallInt(if negative == 1 then 0 - value as int else value)
      else if !IsDigit(msg[k]) then DoubleNumber
      else
        var v := value * 10 + (msg[k] as int - 0x30);
        if v > MAX_VALUE + negative then DoubleNumber else SmallNumber(k + 1, limit, v, negative)
    }

    /** What kind of number is written from start to limit. */
    function NumberAt(start: nat, limit: nat, allowInfinity: bool): (r: Number)
      requires start < limit <= |msg|
    {
      var negative := if msg[start] == u_minus then 1 else 0;
      var k := if msg[start] == u_minus || msg[start] == u_plus then start + 1 else start;
      if k == limit then BadNumber
      else if msg[k] == u_infinity then if allowInfinity && k + 1 == limit then DoubleNumber else BadNumber
      else
        match SmallNumber(k, limit, 0, negative)
        case SmallInt(v) => SmallInt(v)
        case _ => if limit - start < 128 && parsesAsDouble(msg[start..limit]) then DoubleNumber else BadNumber
    }

    /** The part for a number. */
    function NumberPart(start: nat, limit: nat, allowInfinity: bool, doubles: nat): (r: Outcome<Piece>)
      requires start < limit <= |msg|
      ensures r.Ok? ==> r.value.next == limit && |r.value.items| == 1
    {
      match NumberAt(start, limit, allowInfinity)
      case BadNumber => Fail(PATTERN_SYNTAX)
      case SmallInt(v) => Ok(Piece([Leaf(ARG_INT, start, limit - start, v)], limit, doubles))
      case DoubleNumber =>
        if doubles > MAX_VALUE then Fail(INDEX_OUTOFBOUNDS)
        else Ok(Piece([Leaf(ARG_DOUBLE, start, limit - start, doubles)], limit, doubles + 1))
    }

    /** The number and the separator in front of a choice message. */
    function ChoiceHead(i: nat, doubles: nat): (r: Outcome<Piece>)
      requires i <= |msg|
      ensures r.Ok? ==> i < r.value.next <= |msg|
    {
      var j := SkipDouble(i);
      if j == i then Fail(PATTERN_SYNTAX)
      else if j - i > MAX_LENGTH then Fail(INDEX_OUTOFBOUNDS)
      else
        match NumberPart(i, j, true, doubles)
        case Fail(e) => Fail(e)
        case Ok(number) =>
          var k := SkipWhiteSpace(j);
          if k == |msg| || msg[k] !in {u_pound, u_lessThan, u_lessOrEqual} then Fail(PATTERN_SYNTAX)
          else Ok(Piece(number.items + [Leaf(ARG_SELECTOR, k, 1, 0)], k + 1, number.doubles))
    }

    /** The (number, separator, message) triples of a choice style. */
    function ChoiceStyle(i: nat, nesting: nat, doubles: nat): (r: Outcome<Piece>)
      requires i <= |msg|
      ensures r.Ok? ==> i <= r.value.next < |msg|
      decreases |msg| - i, 4
    {
      match ChoiceHead(i, doubles)
      case Fail(e) => Fail(e)
      case Ok(head) =>
        match Message(head.next, 0, nesting + 1, CHOICE, head.doubles)
        case Fail(e) => Fail(e)
        case Ok(message) =>
          var items := head.items + message.items;
          if msg[message.next] == u_rightCurlyBrace then Ok(Piece(items, message.next, message.doubles))
          else PrefixedPiece(items, ChoiceStyle(SkipWhiteSpace(message.next + 1), nesting, message.doubles))
    }

    /** A selector of a plural or select style, up to its message; or a plural offset. */
    function Selector(argType: ArgType, i: nat, isEmpty: bool, doubles: nat): (r: Outcome<Piece>)
      requires i < |msg|
      ensures r.Ok? ==> i < r.value.next <= |msg|
    {
      if HasPluralStyle(argType) && msg[i] == u_equal then
        var j := SkipDouble(i + 1);
        if j == i + 1 then Fail(PATTERN_SYNTAX)
        else if j - i > MAX_LENGTH then Fail(INDEX_OUTOFBOUNDS)
        else PrefixedPiece([Leaf(ARG_SELECTOR, i, j - i, 0)], NumberPart(i + 1, j, false, doubles))
      else
        var j := SkipIdentifier(i);
        if j == i then Fail(PATTERN_SYNTAX)
        else if IsOffset(argType, i) then
          if !isEmpty then Fail(PATTERN_SYNTAX)
          else
            var valueIndex := SkipWhiteSpace(j + 1);
            var k := SkipDouble(valueIndex);
            if k == valueIndex then Fail(PATTERN_SYNTAX)
            else if k - valueIndex > MAX_LENGTH then Fail(INDEX_OUTOFBOUNDS)
            else NumberPart(valueIndex, k, false, doubles)
        else if j - i > MAX_LENGTH then Fail(INDEX_OUTOFBOUNDS)
        else Ok(Piece([Leaf(ARG_SELECTOR, i, j - i, 0)], j, doubles))
    }

    /** Does a plural offset start at i? */
    predicate IsOffset(argType: ArgType, i: nat)
      requires i <= |msg|
    {
      var j := SkipIdentifier(i);
      HasPluralStyle(argType) && j - i == 6 && j < |msg| && msg[i..j + 1] == kOffsetColon
    }

    predicate IsSelector(argType: ArgType, i: nat)
      requires i < |msg|
    {
      (HasPluralStyle(argType) && msg[i] == u_equal) || !IsOffset(argType, i)
    }

    predicate IsOther(argType: ArgType, i: nat)
      requires i < |msg|
    {
      !(HasPluralStyle(argType) && msg[i] == u_equal) && msg[i..SkipIdentifier(i)] == kOther
    }

    /** The (selector, message) pairs of a plural or select style. */
    function PluralOrSelectStyle(argType: ArgType, i: nat, nesting: nat, isEmpty: bool, hasOther: bool, doubles: nat):
        (r: Outcome<Piece>)
      requires i <= |msg|
      ensures r.Ok? ==> i <= r.value.next < |msg|
      decreases |msg| - i, 4
    {
      var j := SkipWhiteSpace(i);
      if j == |msg| then Fail(PATTERN_SYNTAX)
      else if msg[j] == u_rightCurlyBrace then
        if hasOther then Ok(Piece([], j, doubles)) else Fail(DEFAULT_KEYWORD_MISSING)
      else
        match Selector(argType, j, isEmpty, doubles)
        case Fail(e) => Fail(e)
        case Ok(head) =>
          if !IsSelector(argType, j) then
            PrefixedPiece(head.items, PluralOrSelectStyle(argType, head.next, nesting, false, hasOther, head.doubles))
          else
            var k := SkipWhiteSpace(head.next);
            if k == |msg| || msg[k] != u_leftCurlyBrace then Fail(PATTERN_SYNTAX)
            else
              match Message(k, 1, nesting + 1, argType, head.doubles)
              case Fail(e) => Fail(e)
              case Ok(message) =>
                PrefixedPiece(head.items + message.items,
                  PluralOrSelectStyle(argType, message.next, nesting, false, hasOther || IsOther(argType, j),
                                      message.doubles))
    }

    /** The whole pattern. */
    function Pattern(): (r: Outcome<Piece>)
      ensures r.Ok? ==> |r.value.items| == 1 && r.value.next <= |msg|
    {
      Message(0, 0, 0, NONE, 0)
    }
  }

  function Prefixed(items: seq<Item>, rest: Outcome<Body>): (r: Outcome<Body>)
    ensures r.Ok? == rest.Ok?
    ensures r.Ok? ==> r.value == rest.value.(items := items + rest.value.items)
    ensures r.Fail? ==> r == rest
  {
    match rest
    case Fail(e) => Fail(e)
    case Ok(b) => Ok(b.(items := items + b.items))
  }

  function PrefixedPiece(items: seq<Item>, rest: Outcome<Piece>): (r: Outcome<Piece>)
    ensures r.Ok? == rest.Ok?
    ensures r.Ok? ==> r.value == rest.value.(items := items + rest.value.items)
    ensures r.Fail? ==> r == rest
  {
    match rest
    case Fail(e) => Fail(e)
    case Ok(p) => Ok(p.(items := items + p.items))
  }

  lemma SimpleStep(g: Grammar, i: nat, start: nat, nestedBraces: nat)
    requires start <= i <= |g.msg|
    ensures g.SimpleStyle(i, start, nestedBraces) ==
      (if i == |g.msg| then Fail(UNMATCHED_BRACES)
       else if g.msg[i] == u_apos then
         var q := g.IndexOf(u_apos, i + 1);
         if q == |g.msg| then Fail(PATTERN_SYNTAX) else g.SimpleStyle(q + 1, start, nestedBraces)
       else if g.msg[i] == u_leftCurlyBrace then g.SimpleStyle(i + 1, start, nestedBraces + 1)
       else if g.msg[i] == u_rightCurlyBrace then
         if nestedBraces > 0 then g.SimpleStyle(i + 1, start, nestedBraces - 1)
         else if i - start > MAX_LENGTH then Fail(INDEX_OUTOFBOUNDS)
         else Ok(i)
       else g.SimpleStyle(i + 1, start, nestedBraces))
  {
  }

  lemma QuotedIs(g: Grammar, i: nat)
    requires i <= |g.msg|
    ensures var q := g.IndexOf(u_apos, i);
      g.Quoted(i) ==
        if q == |g.msg| then ([Leaf(INSERT_CHAR, q, 0, u_apos as int)], q)
        else if q + 1 < |g.msg| && g.msg[q + 1] == u_apos then
          ([Leaf(SKIP_SYNTAX, q + 1, 1, 0)] + g.Quoted(q + 2).0, g.Quoted(q + 2).1)
        else ([Leaf(SKIP_SYNTAX, q, 1, 0)], q + 1)
  {
    hide Grammar.IndexOf;
  }
}
