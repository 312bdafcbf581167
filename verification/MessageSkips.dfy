/** Skipping white space, names, types, numbers and quoted text which have been printed. */
module MessageSkips {
  import opened Basics
  import opened Utf16
  import opened MessageParts
  import G = MessageGrammar
  import opened MessageSyntax

  type Grammar = G.Grammar

  /** The pattern goes on at i with the text t, and then with the text after it up to its end. */
  ghost predicate Here(g: Grammar, i: nat, t: Text, after: Text) {
    i <= |g.msg| && g.msg[i..] == t + after
  }

  function SettingOf(g: Grammar): Setting {
    Setting(g.doubleRequired, g.whiteSpace, g.syntaxOrWhiteSpace)
  }

  lemma HereSplit(g: Grammar, i: nat, a: Text, b: Text, after: Text)
    requires Here(g, i, a + b, after)
    ensures Here(g, i, a, b + after) && Here(g, i + |a|, b, after)
  {
    Associate(a, b, after);
    assert g.msg[i + |a|..] == g.msg[i..][|a|..];
    assert (a + (b + after))[|a|..] == b + after;
  }

  lemma HereUnit(g: Grammar, i: nat, t: Text, after: Text)
    requires Here(g, i, t, after) && t + after != []
    ensures i < |g.msg| && g.msg[i] == (t + after)[0] && Here(g, i + 1, (t + after)[1..], [])
  {
    assert g.msg[i..][0] == g.msg[i];
    assert g.msg[i + 1..] == g.msg[i..][1..];
  }

  lemma HereAt(g: Grammar, i: nat, t: Text, after: Text, k: nat)
    requires Here(g, i, t, after) && k < |t|
    ensures i + k < |g.msg| && g.msg[i + k] == t[k]
  {
    assert g.msg[i..][k] == g.msg[i + k];
  }

  /** What is between two indexes. */
  lemma HereSlice(g: Grammar, i: nat, t: Text, after: Text)
    requires Here(g, i, t, after)
    ensures i + |t| <= |g.msg| && g.msg[i..i + |t|] == t
    ensures i + |t| == |g.msg| <==> after == []
    ensures after != [] ==> i + |t| < |g.msg| && g.msg[i + |t|] == after[0]
  {
    assert |g.msg[i..]| == |t| + |after|;
    assert g.msg[i..i + |t|] == g.msg[i..][..|t|];
    if after != [] {
      assert g.msg[i + |t|] == g.msg[i..][|t|];
    }
  }

  lemma {:induction false} SkipSpace(g: Grammar, i: nat, t: Text, after: Text)
    requires Here(g, i, t, after) && SettingOf(g).Space(t) && (after == [] || after[0] !in g.whiteSpace)
    ensures g.SkipWhiteSpace(i) == i + |t|
    decreases |t|
  {
    HereSlice(g, i, t, after);
    if t != [] {
      HereSplit(g, i, t[..1], t[1..], after) by { assert t[..1] + t[1..] == t; }
      HereAt(g, i, t, after, 0);
      SkipSpace(g, i + 1, t[1..], after);
    }
  }

  lemma {:induction false} SkipWord(g: Grammar, i: nat, t: Text, after: Text)
    requires Here(g, i, t, after) && (forall k :: 0 <= k < |t| ==> t[k] !in g.syntaxOrWhiteSpace)
    requires after == [] || after[0] in g.syntaxOrWhiteSpace
    ensures g.SkipIdentifier(i) == i + |t|
    decreases |t|
  {
    HereSlice(g, i, t, after);
    if t != [] {
      HereSplit(g, i, t[..1], t[1..], after) by { assert t[..1] + t[1..] == t; }
      HereAt(g, i, t, after, 0);
      SkipWord(g, i + 1, t[1..], after);
    }
  }

  lemma {:induction false} SkipNumber(g: Grammar, i: nat, t: Text, after: Text)
    requires Here(g, i, t, after) && (forall k :: 0 <= k < |t| ==> IsNumberUnit(t[k]))
    requires after == [] || !IsNumberUnit(after[0])
    ensures g.SkipDouble(i) == i + |t|
    decreases |t|
  {
    HereSlice(g, i, t, after);
    if t != [] {
      HereSplit(g, i, t[..1], t[1..], after) by { assert t[..1] + t[1..] == t; }
      HereAt(g, i, t, after, 0);
      SkipNumber(g, i + 1, t[1..], after);
    }
  }

  predicate IsLetter(c: Unit) {
    0x41 <= c <= 0x5a || 0x61 <= c <= 0x7a
  }

  lemma {:induction false} SkipLetters(g: Grammar, i: nat, t: Text, after: Text)
    requires Here(g, i, t, after) && (forall k :: 0 <= k < |t| ==> IsLetter(t[k]))
    requires after == [] || !IsLetter(after[0])
    ensures g.SkipArgType(i) == i + |t|
    decreases |t|
  {
    HereSlice(g, i, t, after);
    if t != [] {
      HereSplit(g, i, t[..1], t[1..], after) by { assert t[..1] + t[1..] == t; }
      HereAt(g, i, t, after, 0);
      SkipLetters(g, i + 1, t[1..], after);
    }
  }

  lemma {:induction false} FindApostrophe(g: Grammar, i: nat, t: Text, after: Text)
    requires Here(g, i, t, after) && 0x27 !in t && (after == [] || after[0] == 0x27)
    ensures g.IndexOf(0x27, i) == i + |t|
    decreases |t|
  {
    HereSlice(g, i, t, after);
    if t != [] {
      HereSplit(g, i, t[..1], t[1..], after) by { assert t[..1] + t[1..] == t; }
      HereAt(g, i, t, after, 0);
      FindApostrophe(g, i + 1, t[1..], after);
    }
  }

  /** Some text up to an apostrophe. */
  lemma QuotedUpTo(g: Grammar, i: nat, text: Text, more: Text)
    requires 0x27 !in text && Here(g, i, text, more) && (more == [] || more[0] == 0x27)
    ensures i + |text| <= |g.msg|
    ensures g.Quoted(i) ==
      if more == [] then ([Leaf(INSERT_CHAR, i + |text|, 0, 0x27)], i + |text|)
      else if |more| > 1 && more[1] == 0x27 then
        ([Leaf(SKIP_SYNTAX, i + |text| + 1, 1, 0)] + g.Quoted(i + |text| + 2).0, g.Quoted(i + |text| + 2).1)
      else ([Leaf(SKIP_SYNTAX, i + |text|, 1, 0)], i + |text| + 1)
  {
    hide Grammar.IndexOf, Grammar.Quoted;
    G.QuotedIs(g, i);
    FindApostrophe(g, i, text, more);
    HereSlice(g, i, text, more);
    var q := i + |text|;
    assert g.msg[q..] == more by {
      assert g.msg[q..] == g.msg[i..][|text|..];
    }
    if |more| > 1 {
      assert g.msg[q + 1] == g.msg[q..][1];
    }
  }

  function Close(closed: bool): Text {
    if closed then [0x27] else []
  }

  function QuoteEnd(closed: bool, e: nat): Item {
    if closed then Leaf(SKIP_SYNTAX, e, 1, 0) else Leaf(INSERT_CHAR, e, 0, 0x27)
  }

  /** Quoted text from behind its first apostrophe, with its closing apostrophe or up to the end of the pattern. */
  lemma {:induction false} QuotedTextParses(g: Grammar, i: nat, texts: seq<Text>, closed: bool, after: Text)
    requires texts != [] && forall k :: 0 <= k < |texts| ==> 0x27 !in texts[k]
    requires Here(g, i, PrintTexts(texts) + Close(closed), after)
    requires after == [] || (closed && after[0] != 0x27)
    ensures var e := i + |PrintTexts(texts)|;
      g.Quoted(i) == (PairItems(texts, i) + [QuoteEnd(closed, e)], e + |Close(closed)|)
    decreases |texts|
  {
    hide Grammar.IndexOf, Grammar.Quoted, Here;
    var close := Close(closed);
    if |texts| == 1 {
      HereSplit(g, i, texts[0], close, after);
      QuotedUpTo(g, i, texts[0], close + after);
      assert PairItems(texts, i) + [QuoteEnd(closed, i + |texts[0]|)] == [QuoteEnd(closed, i + |texts[0]|)];
    } else {
      var pair: Text := [0x27, 0x27];
      var rest := PrintTexts(texts[1..]) + close;
      var j := i + |texts[0]|;
      TextsSplit(texts, close);
      HereSplit(g, i, texts[0], pair + rest, after);
      QuotedUpTo(g, i, texts[0], (pair + rest) + after);
      HereSplit(g, j, pair, rest, after);
      QuotedTextParses(g, j + 2, texts[1..], closed, after);
      var e := i + |PrintTexts(texts)|;
      Associate([Leaf(SKIP_SYNTAX, j + 1, 1, 0)], PairItems(texts[1..], j + 2),
                [QuoteEnd(closed, e)]);
    }
  }

  lemma TextsSplit(texts: seq<Text>, close: Text)
    requires |texts| > 1
    ensures PrintTexts(texts) + close == texts[0] + ([0x27, 0x27] + (PrintTexts(texts[1..]) + close))
    ensures |PrintTexts(texts)| == |texts[0]| + 2 + |PrintTexts(texts[1..])|
  {
  }

  /** The closing brace behind a simple style. */
  lemma {:induction false} PiecesParse(g: Grammar, i: nat, start: nat, nested: nat, pieces: seq<StylePiece>, after: Text)
    requires SettingOf(g).ValidPieces(pieces) && Here(g, i, PrintPieces(pieces), after) && start <= i
    ensures i + |PrintPieces(pieces)| <= |g.msg|
    ensures g.SimpleStyle(i, start, nested) == g.SimpleStyle(i + |PrintPieces(pieces)|, start, nested)
    decreases pieces, 0
  {
    hide Here, Grammar.SimpleStyle;
    HereSlice(g, i, PrintPieces(pieces), after);
    if pieces != [] {
      var first, rest := PrintPiece(pieces[0]), PrintPieces(pieces[1..]);
      HereSplit(g, i, first, rest, after);
      PieceParses(g, i, start, nested, pieces[0], rest + after);
      PiecesParse(g, i + |first|, start, nested, pieces[1..], after);
    }
  }

  lemma {:induction false} PieceParses(g: Grammar, i: nat, start: nat, nested: nat, piece: StylePiece, after: Text)
    requires SettingOf(g).ValidPiece(piece) && Here(g, i, PrintPiece(piece), after) && start <= i
    ensures i + |PrintPiece(piece)| <= |g.msg|
    ensures g.SimpleStyle(i, start, nested) == g.SimpleStyle(i + |PrintPiece(piece)|, start, nested)
    decreases piece, 1
  {
    hide Here, Grammar.SimpleStyle, Grammar.IndexOf;
    HereSlice(g, i, PrintPiece(piece), after);
    match piece
    case Letter(c) =>
      HereAt(g, i, PrintPiece(piece), after, 0);
      G.SimpleStep(g, i, start, nested);
    case Braced(pieces) =>
      var inner := PrintPieces(pieces);
      HereSplit(g, i, [0x7b], inner + [0x7d], after);
      HereSplit(g, i + 1, inner, [0x7d], after);
      PiecesParse(g, i + 1, start, nested + 1, pieces, [0x7d] + after);
      BracesSkipped(g, i, start, nested, inner, after);
    case Quote(text) =>
      QuoteSkipped(g, i, start, nested, text, after);
  }

  lemma BracesSkipped(g: Grammar, i: nat, start: nat, nested: nat, inner: Text, after: Text)
    requires Here(g, i, [0x7b] + (inner + [0x7d]), after) && start <= i && i + 2 + |inner| <= |g.msg|
    requires g.SimpleStyle(i + 1, start, nested + 1) == g.SimpleStyle(i + 1 + |inner|, start, nested + 1)
    ensures g.SimpleStyle(i, start, nested) == g.SimpleStyle(i + 2 + |inner|, start, nested)
  {
    hide Here, Grammar.SimpleStyle, Grammar.IndexOf;
    var t: Text := [0x7b] + (inner + [0x7d]);
    HereAt(g, i, t, after, 0);
    HereAt(g, i, t, after, 1 + |inner|);
    G.SimpleStep(g, i, start, nested);
    G.SimpleStep(g, i + 1 + |inner|, start, nested + 1);
  }

  lemma QuoteSkipped(g: Grammar, i: nat, start: nat, nested: nat, text: Text, after: Text)
    requires 0x27 !in text && Here(g, i, [0x27] + (text + [0x27]), after) && start <= i
    ensures i + 2 + |text| <= |g.msg| && g.SimpleStyle(i, start, nested) == g.SimpleStyle(i + 2 + |text|, start, nested)
  {
    hide Here, Grammar.SimpleStyle, Grammar.IndexOf;
    HereSlice(g, i, [0x27] + (text + [0x27]), after);
    HereAt(g, i, [0x27] + (text + [0x27]), after, 0);
    HereSplit(g, i, [0x27], text + [0x27], after);
    HereSplit(g, i + 1, text, [0x27], after);
    FindApostrophe(g, i + 1, text, [0x27] + after);
    G.SimpleStep(g, i, start, nested);
  }
}
