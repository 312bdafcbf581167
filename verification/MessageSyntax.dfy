/** Message patterns as trees: how a tree is written, which trees are valid, and the items of a tree. */
module MessageSyntax {
  import opened Utf16
  import opened MessageParts

  type Text = seq<Unit>

  const APOSTROPHE: Unit := 0x27

  /** A piece of a message. */
  datatype Node =
    | Char(c: Unit)
    | Doubled
    | Literal
    | Quoted(texts: seq<Text>)
    | Unclosed(texts: seq<Text>)
    | NumberSign
    | Argument(space: Text, name: Name, after: Text, style: Style)

  datatype Name = Word(word: Text) | Index(digits: Text)

  /** What comes after the name of an argument. */
  datatype Style =
    | NoType
    | Typed(before: Text, letters: Text, after: Text, rest: Rest)

  /** What comes after the type of an argument. */
  datatype Rest =
    | NoStyle
    | SimpleStyle(pieces: seq<StylePiece>)
    | ChoiceStyle(choices: seq<Choice>)
    | KeyedStyle(offset: Offset, cases: seq<Case>, last: Text)

  /** A piece of a simple style. */
  datatype StylePiece = Letter(c: Unit) | Braced(pieces: seq<StylePiece>) | Quote(text: Text)

  /** Number, separator and message. */
  datatype Choice = Choice(before: Text, number: Numeral, after: Text, separator: Unit, message: seq<Node>)

  /** Selector and message. */
  datatype Case = Case(before: Text, key: Key, after: Text, message: seq<Node>)

  datatype Key = Keyword(word: Text) | Exactly(number: Numeral)

  datatype Offset = NoOffset | Offset(before: Text, space: Text, number: Numeral)

  /** A sign or none, and decimal digits. */
  datatype Numeral = Numeral(sign: Text, digits: Text)
  {
    function Print(): Text {
      sign + digits
    }

    function Value(): int {
      if sign == [0x2d] then -Decimal(digits) else Decimal(digits)
    }

    /** A number from -8000 to 7fff; without a minus sign, also 0. */
    predicate Valid() {
      && sign in {[], [0x2b], [0x2d]} && digits != [] && AreDigits(digits) && |Print()| <= 0xffff
      && -0x8000 <= Value() <= 0x7fff
    }
  }

  predicate AreDigits(t: Text) {
    forall k :: 0 <= k < |t| ==> 0x30 <= t[k] <= 0x39
  }

  /** The value of decimal digits. */
  function Decimal(t: Text): int {
    if t == [] then 0 else Decimal(t[..|t| - 1]) * 10 + (t[|t| - 1] as int - 0x30)
  }

  /** Is it this lower-case word, when ASCII letters are compared without case? */
  predicate Spells(t: Text, word: string) {
    |t| == |word| && forall k :: 0 <= k < |t| ==> t[k] as int == word[k] as int || t[k] as int + 0x20 == word[k] as int
  }

  /** The number of an argument type: 1 is simple, 2 choice, 3 plural, 4 select and 5 selectordinal. */
  function TypeNumber(letters: Text): int {
    if Spells(letters, "choice") then 2
    else if Spells(letters, "plural") then 3
    else if Spells(letters, "select") then 4
    else if Spells(letters, "selectordinal") then 5
    else 1
  }

  /** The number of the type of an argument; 0 is none. */
  function KindOf(style: Style): int {
    if style.NoType? then 0 else TypeNumber(style.letters)
  }

  // Writing a tree.

  function Print(nodes: seq<Node>): Text
    decreases nodes, 0
  {
    if nodes == [] then [] else PrintNode(nodes[0]) + Print(nodes[1..])
  }

  function PrintNode(n: Node): (t: Text)
    ensures |t| > 0
    decreases n, 1
  {
    match n
    case Char(c) => [c]
    case Doubled => [0x27, 0x27]
    case Literal => [0x27]
    case Quoted(texts) => [0x27] + (PrintTexts(texts) + [0x27])
    case Unclosed(texts) => [0x27] + PrintTexts(texts)
    case NumberSign => [0x23]
    case Argument(space, name, after, style) =>
      [0x7b] + (space + (PrintName(name) + (after + (PrintStyle(style) + [0x7d]))))
  }

  /** Texts with doubled apostrophes between them. */
  function PrintTexts(texts: seq<Text>): Text {
    if texts == [] then []
    else if |texts| == 1 then texts[0]
    else texts[0] + ([0x27, 0x27] + PrintTexts(texts[1..]))
  }

  function PrintName(name: Name): Text {
    match name
    case Word(word) => word
    case Index(digits) => digits
  }

  function PrintStyle(style: Style): Text
    decreases style, 0
  {
    match style
    case NoType => []
    case Typed(before, letters, after, rest) => [0x2c] + (before + (letters + (after + PrintRest(rest))))
  }

  function PrintRest(rest: Rest): Text
    decreases rest, 0
  {
    match rest
    case NoStyle => []
    case SimpleStyle(pieces) => [0x2c] + PrintPieces(pieces)
    case ChoiceStyle(choices) => [0x2c] + PrintChoices(choices)
    case KeyedStyle(offset, cases, last) => [0x2c] + (PrintOffset(offset) + (PrintCases(cases) + last))
  }

  function PrintPieces(pieces: seq<StylePiece>): Text
    decreases pieces, 0
  {
    if pieces == [] then [] else PrintPiece(pieces[0]) + PrintPieces(pieces[1..])
  }

  function PrintPiece(piece: StylePiece): Text
    decreases piece, 1
  {
    match piece
    case Letter(c) => [c]
    case Braced(pieces) => [0x7b] + (PrintPieces(pieces) + [0x7d])
    case Quote(text) => [0x27] + (text + [0x27])
  }

  /** The choices, with vertical bars between them. */
  function PrintChoices(choices: seq<Choice>): Text
    decreases choices, 0
  {
    if choices == [] then []
    else if |choices| == 1 then PrintChoice(choices[0])
    else PrintChoice(choices[0]) + ([0x7c] + PrintChoices(choices[1..]))
  }

  function PrintChoice(c: Choice): Text
    decreases c, 1
  {
    c.before + (c.number.Print() + (c.after + ([c.separator] + Print(c.message))))
  }

  /** The letters of the word offset, and a colon. */
  function PrintOffset(offset: Offset): Text {
    match offset
    case NoOffset => []
    case Offset(before, space, number) =>
      before + ([0x6f, 0x66, 0x66, 0x73, 0x65, 0x74, 0x3a] + (space + number.Print()))
  }

  function PrintCases(cases: seq<Case>): Text
    decreases cases, 0
  {
    if cases == [] then [] else PrintCase(cases[0]) + PrintCases(cases[1..])
  }

  function PrintCase(c: Case): (t: Text)
    ensures |t| > 0
    decreases c, 1
  {
    c.before + (PrintKey(c.key) + (c.after + ([0x7b] + (Print(c.message) + [0x7d]))))
  }

  function PrintKey(key: Key): Text {
    match key
    case Keyword(word) => word
    case Exactly(number) => [0x3d] + number.Print()
  }

  // The items of a tree which is written from index i on.

  function Items(nodes: seq<Node>, i: nat, nesting: nat): seq<Item>
    decreases nodes, 0
  {
    if nodes == [] then []
    else NodeItems(nodes[0], i, nesting) + Items(nodes[1..], i + |PrintNode(nodes[0])|, nesting)
  }

  function NodeItems(n: Node, i: nat, nesting: nat): seq<Item>
    decreases n, 1
  {
    match n
    case Char(c) => []
    case Doubled => [Leaf(SKIP_SYNTAX, i + 1, 1, 0)]
    case Literal => [Leaf(INSERT_CHAR, i + 1, 0, 0x27)]
    case Quoted(texts) =>
      [Leaf(SKIP_SYNTAX, i, 1, 0)] + (PairItems(texts, i + 1) + [Leaf(SKIP_SYNTAX, i + 1 + |PrintTexts(texts)|, 1, 0)])
    case Unclosed(texts) =>
      [Leaf(SKIP_SYNTAX, i, 1, 0)] + (PairItems(texts, i + 1) + [Leaf(INSERT_CHAR, i + 1 + |PrintTexts(texts)|, 0, 0x27)])
    case NumberSign => [Leaf(REPLACE_NUMBER, i, 1, 0)]
    case Argument(space, name, after, style) =>
      var j := i + 1 + |space|;
      var k := j + |PrintName(name)| + |after|;
      [Group(false, i, 1, KindOf(style), [NameItem(name, j)] + StyleItems(style, k, nesting), k + |PrintStyle(style)|, 1)]
  }

  /** The second apostrophe of each doubled one. */
  function PairItems(texts: seq<Text>, i: nat): seq<Item> {
    if |texts| <= 1 then []
    else
      var j := i + |texts[0]|;
      [Leaf(SKIP_SYNTAX, j + 1, 1, 0)] + PairItems(texts[1..], j + 2)
  }

  function NameItem(name: Name, i: nat): Item {
    match name
    case Word(word) => Leaf(ARG_NAME, i, |word|, 0)
    case Index(digits) => Leaf(ARG_NUMBER, i, |digits|, Decimal(digits))
  }

  function StyleItems(style: Style, i: nat, nesting: nat): seq<Item>
    decreases style, 0
  {
    match style
    case NoType => []
    case Typed(before, letters, after, rest) =>
      var j := i + 1 + |before|;
      var k := j + |letters| + |after|;
      (if TypeNumber(letters) == 1 then [Leaf(ARG_TYPE, j, |letters|, 0)] else []) + RestItems(rest, k, nesting)
  }

  function RestItems(rest: Rest, i: nat, nesting: nat): seq<Item>
    decreases rest, 0
  {
    match rest
    case NoStyle => []
    case SimpleStyle(pieces) => [Leaf(ARG_STYLE, i + 1, |PrintPieces(pieces)|, 0)]
    case ChoiceStyle(choices) => ChoiceItems(choices, i + 1, nesting)
    case KeyedStyle(offset, cases, last) =>
      OffsetItems(offset, i + 1) + CaseItems(cases, i + 1 + |PrintOffset(offset)|, nesting)
  }

  /** The limit of the last message is the closing brace, which belongs to the argument. */
  function ChoiceItems(choices: seq<Choice>, i: nat, nesting: nat): seq<Item>
    decreases choices, 0
  {
    if choices == [] then []
    else
      OneChoice(choices[0], i, nesting, if |choices| == 1 then 0 else 1)
      + ChoiceItems(choices[1..], i + |PrintChoice(choices[0])| + 1, nesting)
  }

  function OneChoice(c: Choice, i: nat, nesting: nat, limitLength: nat): seq<Item>
    decreases c, 1
  {
    var j := i + |c.before|;
    var k := j + |c.number.Print()| + |c.after|;
    [Leaf(ARG_INT, j, |c.number.Print()|, c.number.Value()), Leaf(ARG_SELECTOR, k, 1, 0),
     Group(true, k + 1, 0, nesting + 1, Items(c.message, k + 1, nesting + 1), k + 1 + |Print(c.message)|, limitLength)]
  }

  function OffsetItems(offset: Offset, i: nat): seq<Item> {
    match offset
    case NoOffset => []
    case Offset(before, space, number) =>
      [Leaf(ARG_INT, i + |before| + 7 + |space|, |number.Print()|, number.Value())]
  }

  function CaseItems(cases: seq<Case>, i: nat, nesting: nat): seq<Item>
    decreases cases, 0
  {
    if cases == [] then []
    else OneCase(cases[0], i, nesting) + CaseItems(cases[1..], i + |PrintCase(cases[0])|, nesting)
  }

  function OneCase(c: Case, i: nat, nesting: nat): seq<Item>
    decreases c, 1
  {
    var j := i + |c.before|;
    var k := j + |PrintKey(c.key)| + |c.after|;
    KeyItems(c.key, j)
    + [Group(true, k, 1, nesting + 1, Items(c.message, k + 1, nesting + 1), k + 1 + |Print(c.message)|, 1)]
  }

  function KeyItems(key: Key, i: nat): seq<Item> {
    match key
    case Keyword(word) => [Leaf(ARG_SELECTOR, i, |word|, 0)]
    case Exactly(number) =>
      [Leaf(ARG_SELECTOR, i, 1 + |number.Print()|, 0), Leaf(ARG_INT, i + 1, |number.Print()|, number.Value())]
  }

  /** The items of a whole pattern. */
  function PatternItems(nodes: seq<Node>): seq<Item> {
    [Group(true, 0, 0, 0, Items(nodes, 0, 0), |Print(nodes)|, 0)]
  }

  // Valid trees.

  /** Which code units are white space or syntax, and whether apostrophes must be doubled. */
  datatype Setting = Setting(doubleRequired: bool, whiteSpace: set<Unit>, syntaxOrWhiteSpace: set<Unit>)
  {
    /** White space is not part of names, numbers and syntax; ASCII letters and digits are not syntax, and some characters are. */
    ghost predicate Usual() {
      && whiteSpace <= syntaxOrWhiteSpace
      && {0x23, 0x27, 0x2c, 0x3a, 0x3c, 0x3d, 0x7b, 0x7c, 0x7d} <= syntaxOrWhiteSpace
      && whiteSpace !! {0x23, 0x27, 0x2b, 0x2c, 0x2d, 0x2e, 0x3a, 0x3c, 0x3d, 0x7b, 0x7c, 0x7d, 0x221e, 0x2264}
      && forall c: Unit :: 0x30 <= c <= 0x39 || 0x41 <= c <= 0x5a || 0x61 <= c <= 0x7a ==> c !in syntaxOrWhiteSpace
    }

    ghost predicate Space(t: Text) {
      forall k :: 0 <= k < |t| ==> t[k] in whiteSpace
    }

    ghost predicate Identifier(t: Text) {
      0 < |t| <= 0xffff && forall k :: 0 <= k < |t| ==> t[k] !in syntaxOrWhiteSpace
    }

    /** Does c after an apostrophe start quoted text, in a message of an argument of this kind? */
    ghost predicate Starts(c: Unit, kind: int) {
      || doubleRequired || c == 0x7b || c == 0x7d || (kind == 2 && c == 0x7c)
      || ((kind == 3 || kind == 5) && c == 0x23)
    }

    /** Are these the texts of quoted text, after its opening apostrophe? */
    ghost predicate QuotedTexts(texts: seq<Text>, kind: int) {
      && texts != [] && texts[0] != [] && Starts(texts[0][0], kind)
      && forall k :: 0 <= k < |texts| ==> 0x27 !in texts[k]
    }

    /** A message in an argument of this kind; kind 0 is the pattern itself. The message is in front of some text. */
    ghost predicate Valid(nodes: seq<Node>, kind: int, nesting: nat, after: Text)
      decreases nodes, 0
    {
      nodes != [] ==>
        ValidNode(nodes[0], kind, nesting, Print(nodes[1..]) + after) && Valid(nodes[1..], kind, nesting, after)
    }

    ghost predicate ValidNode(n: Node, kind: int, nesting: nat, after: Text)
      decreases n, 1
    {
      match n
      case Char(c) =>
        && c != 0x27 && c != 0x7b && (c == 0x7d ==> kind == 0) && (c == 0x7c ==> kind != 2)
        && (c == 0x23 ==> kind != 3 && kind != 5)
      case Doubled => true
      case Literal => after == [] || (after[0] != 0x27 && !Starts(after[0], kind))
      case Quoted(texts) => QuotedTexts(texts, kind) && (after == [] || after[0] != 0x27)
      case Unclosed(texts) => QuotedTexts(texts, kind) && after == []
      case NumberSign => kind == 3 || kind == 5
      case Argument(space, name, after, style) =>
        Space(space) && ValidName(name) && Space(after) && ValidStyle(style, nesting)
    }

    /** A name which is not all digits, or a number up to 7fff without leading zeros. */
    ghost predicate ValidName(name: Name) {
      match name
      case Word(word) => Identifier(word) && !AreDigits(word)
      case Index(digits) =>
        && digits != [] && AreDigits(digits) && (digits[0] == 0x30 ==> |digits| == 1)
        && Decimal(digits) <= 0x7fff
    }

    ghost predicate ValidStyle(style: Style, nesting: nat)
      decreases style, 0
    {
      match style
      case NoType => true
      case Typed(before, letters, after, rest) => ValidType(style) && ValidRest(rest, TypeNumber(letters), nesting)
    }

    ghost predicate ValidType(style: Style) {
      match style
      case NoType => true
      case Typed(before, letters, after, rest) =>
        && Space(before) && Space(after) && 0 < |letters| <= 0xffff
        && forall k :: 0 <= k < |letters| ==> 0x41 <= letters[k] <= 0x5a || 0x61 <= letters[k] <= 0x7a
    }

    ghost predicate ValidRest(rest: Rest, kind: int, nesting: nat)
      decreases rest, 0
    {
      match rest
      case NoStyle => kind == 1
      case SimpleStyle(pieces) => kind == 1 && ValidPieces(pieces) && |PrintPieces(pieces)| <= 0xffff
      case ChoiceStyle(choices) => kind == 2 && choices != [] && nesting < 0x7fff && ValidChoices(choices, nesting)
      case KeyedStyle(offset, cases, last) => ValidKeyed(offset, cases, last, kind, nesting) && HasOther(cases)
    }

    /** Selectors and messages, after a plural offset or none. */
    ghost predicate ValidKeyed(offset: Offset, cases: seq<Case>, last: Text, kind: int, nesting: nat)
      decreases cases, 1
    {
      && kind in {3, 4, 5} && nesting < 0x7fff && Space(last) && ValidCases(cases, kind, nesting)
      && (offset.Offset? ==> kind != 4 && ValidOffset(offset) && cases != [] && !IsNumberUnit(PrintCase(cases[0])[0]))
    }

    ghost predicate ValidPieces(pieces: seq<StylePiece>)
      decreases pieces, 0
    {
      pieces != [] ==> ValidPiece(pieces[0]) && ValidPieces(pieces[1..])
    }

    ghost predicate ValidPiece(piece: StylePiece)
      decreases piece, 1
    {
      match piece
      case Letter(c) => c != 0x27 && c != 0x7b && c != 0x7d
      case Braced(pieces) => ValidPieces(pieces)
      case Quote(text) => 0x27 !in text
    }

    ghost predicate ValidChoices(choices: seq<Choice>, nesting: nat)
      decreases choices, 0
    {
      choices != [] ==>
        && ValidChoice(choices[0], nesting, if |choices| == 1 then [0x7d] else [0x7c])
        && ValidChoices(choices[1..], nesting)
    }

    /** The separators are the number sign, less than, and less than or equal. */
    ghost predicate ValidChoice(c: Choice, nesting: nat, after: Text)
      decreases c, 1
    {
      && Space(c.before) && c.number.Valid() && Space(c.after) && c.separator in {0x23, 0x3c, 0x2264}
      && Valid(c.message, 2, nesting + 1, after)
    }

    ghost predicate ValidOffset(offset: Offset)
      requires offset.Offset?
    {
      Space(offset.before) && Space(offset.space) && offset.number.Valid()
    }

    ghost predicate ValidCases(cases: seq<Case>, kind: int, nesting: nat)
      decreases cases, 0
    {
      cases != [] ==> ValidCase(cases[0], kind, nesting) && ValidCases(cases[1..], kind, nesting)
    }

    ghost predicate ValidCase(c: Case, kind: int, nesting: nat)
      decreases c, 1
    {
      && Space(c.before) && Space(c.after) && Valid(c.message, kind, nesting + 1, [0x7d])
      && match c.key
         case Keyword(word) => Identifier(word)
         case Exactly(number) => kind != 4 && number.Valid() && |number.Print()| < 0xffff
    }
  }

  /** One of the selectors is the word other. */
  ghost predicate HasOther(cases: seq<Case>) {
    exists k :: 0 <= k < |cases| && cases[k].key == Keyword([0x6f, 0x74, 0x68, 0x65, 0x72])
  }

  /** Can c be part of a number? */
  predicate IsNumberUnit(c: Unit) {
    0x30 <= c <= 0x39 || c in {0x2b, 0x2d, 0x2e, 0x45, 0x65, 0x221e}
  }
}
