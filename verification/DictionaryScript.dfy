/** Words with characters outside of the script of a dictionary. */
module DictionaryScript {
  import opened Trie
  import opened Utf16
  import opened Utf16Text
  import opened UText
  import opened DictionaryMatcher
  import C = BytesTrie

  /** Does the transform accept all code points? */
  ghost predicate InScript(t: Transform, cps: seq<int>) {
    forall c :: c in cps ==> TransformOf(t, c) != U_SENTINEL
  }

  /** Is w one of the words at start? */
  ghost predicate Found(d: Dictionary, s: seq<Unit>, start: nat, maxLength: int, w: Candidate) {
    Boundary(s, start) && w in d.Words(s, start, start, 0, maxLength)
  }

  /** Does every word which is found in any text have only code points which the transform accepts? */
  ghost predicate OnlyScriptWords(d: Dictionary) {
    forall s, start: nat, maxLength, w | Found(d, s, start, maxLength, w) ::
      start + w.cuLength <= |s| && InScript(d.transform, Decode(s[start..start + w.cuLength]))
  }

  /** Some code point which the transform refuses. */
  function Refused(t: Transform): int
    requires t.Offset?
  {
    if t.offset > 0x41 then 0x41 else 0x200
  }

  /** The code point for a byte of a key; for the byte 0xff a refused one. */
  function Spelling(t: Transform, x: int): int
    requires t.Offset?
  {
    if x == 0xff then Refused(t) else if x == 0xfe then 0x200c else t.offset + x
  }

  /** Is x the byte of some code point? */
  predicate Spells(t: Transform, x: int)
    requires t.Offset?
  {
    || x == 0xff || x == 0xfe
    || (0 <= x <= 0xfd && t.offset + x <= 0x10_ffff && t.offset + x !in {0x200c, 0x200d})
  }

  /** Is the key the key of some text? */
  ghost predicate Spelled(t: Transform, key: seq<int>)
    requires t.Offset?
  {
    && (forall i :: 0 <= i < |key| ==> Spells(t, key[i]))
    && forall i :: 0 <= i < |key| - 1 ==> !Joins(Spelling(t, key[i]), Spelling(t, key[i + 1]))
  }

  function Spell(t: Transform, key: seq<int>): (cps: seq<int>)
    requires t.Offset?
    ensures |cps| == |key| && forall i :: 0 <= i < |key| ==> cps[i] == Spelling(t, key[i])
  {
    seq(|key|, i requires 0 <= i < |key| => Spelling(t, key[i]))
  }

  lemma SpellSpells(t: Transform, x: int)
    requires t.Offset? && Spells(t, x)
    ensures IsCodePoint(Spelling(t, x)) && KeyByte(t, Spelling(t, x)) == x
    ensures TransformOf(t, Spelling(t, x)) == U_SENTINEL <==> x == 0xff
  {
  }

  /** A key is spelled exactly if it is the key of some text. */
  lemma SpelledKey(t: Transform, key: seq<int>)
    requires t.Offset?
    ensures Spelled(t, key) <==> exists s :: Key(t, Decode(s)) == key
  {
    if Spelled(t, key) {
      var s := SpelledText(t, key);
      assert Key(t, Decode(s)) == key;
    }
    if s :| Key(t, Decode(s)) == key {
      KeySpelled(t, s);
    }
  }

  /** The text for a key. */
  lemma SpelledText(t: Transform, key: seq<int>) returns (s: seq<Unit>)
    requires t.Offset? && Spelled(t, key)
    ensures Decode(s) == Spell(t, key) && Key(t, Decode(s)) == key
  {
    var cps := Spell(t, key);
    forall i | 0 <= i < |key|
      ensures IsCodePoint(cps[i]) && KeyByte(t, cps[i]) == key[i]
    {
      SpellSpells(t, key[i]);
    }
    s := Encode(cps);
    EncodeRoundTrip(cps);
  }

  lemma KeySpelled(t: Transform, s: seq<Unit>)
    requires t.Offset?
    ensures Spelled(t, Key(t, Decode(s)))
  {
    var cps := Decode(s);
    DecodeSeparate(s);
    forall i | 0 <= i < |cps|
      ensures IsCodePoint(cps[i]) && Spells(t, KeyByte(t, cps[i]))
      ensures Spelling(t, KeyByte(t, cps[i])) == cps[i] || !IsSurrogate(Spelling(t, KeyByte(t, cps[i])))
    {
    }
  }

  predicate IsSurrogate(c: int) { 0xd800 <= c < 0xe000 }

  /** Every word has only code points of the script if and only if no key of some text in the dictionary has the byte 0xff. */
  lemma ScriptWords(d: Dictionary)
    requires d.transform.Offset?
    ensures OnlyScriptWords(d) <==> forall p :: p in d.words && 0xff in p.key ==> !Spelled(d.transform, p.key)
  {
    if p :| p in d.words && 0xff in p.key && Spelled(d.transform, p.key) {
      WordOutside(d, p);
    } else {
      forall s, start: nat, maxLength, w | Found(d, s, start, maxLength, w)
        ensures start + w.cuLength <= |s| && InScript(d.transform, Decode(s[start..start + w.cuLength]))
      {
        WordInside(d, s, start, maxLength, w);
      }
    }
  }

  /** In a serialized dictionary for a script below U+1F00, every key is the key of some text. */
  lemma LowScriptWords(d: Dictionary)
    requires d.transform.Offset? && d.transform.offset < 0x1f00 && C.ByteKeys(d.words)
    ensures OnlyScriptWords(d) <==> forall p :: p in d.words ==> 0xff !in p.key
  {
    hide OnlyScriptWords;
    ScriptWords(d);
    forall p | p in d.words
      ensures Spelled(d.transform, p.key)
    {
      forall i | 0 <= i < |p.key|
        ensures Spells(d.transform, p.key[i]) && Spelling(d.transform, p.key[i]) < 0xd800
      {
        assert 0 <= p.key[i] < 0x100;
      }
    }
  }

  /** A key with the byte 0xff finds a word with a refused code point. */
  lemma WordOutside(d: Dictionary, p: Pair)
    requires d.transform.Offset? && p in d.words && 0xff in p.key && Spelled(d.transform, p.key)
    ensures !OnlyScriptWords(d)
  {
    hide Decode, Dictionary.Words, Spelled;
    var s := SpelledText(d.transform, p.key);
    WholeText(s);
    assert d.IsWord(s, 0, |s|);
    WordLengths(d, s, 0, |s|, |s|);
    var w :| w in d.Words(s, 0, 0, 0, |s|) && w.cuLength == |s|;
    assert Found(d, s, 0, |s|, w);
    var i :| 0 <= i < |p.key| && p.key[i] == 0xff;
    var c := Decode(s)[i];
    assert c in Decode(s) && TransformOf(d.transform, c) == U_SENTINEL;
    assert s[0..0 + w.cuLength] == s;
    assert !InScript(d.transform, Decode(s));
  }

  lemma WholeText(s: seq<Unit>)
    ensures s[0..|s|] == s && Boundary(s, 0) && Boundary(s, 0 + |s|) && (|s| == 0 ==> Decode(s) == [])
  {
  }

  lemma WordInside(d: Dictionary, s: seq<Unit>, start: nat, maxLength: int, w: Candidate)
    requires d.transform.Offset? && Found(d, s, start, maxLength, w)
    requires forall p :: p in d.words && 0xff in p.key ==> !Spelled(d.transform, p.key)
    ensures start + w.cuLength <= |s| && InScript(d.transform, Decode(s[start..start + w.cuLength]))
  {
    hide Decode, Dictionary.Words, Spelled, Boundary;
    var t, words := d.transform, d.Words(s, start, start, 0, maxLength);
    FoundAt(d, s, start, maxLength, w);
    var text := s[start..start + w.cuLength];
    KeySpelled(t, text);
    var p :| p in d.words && p.key == Key(t, Decode(text));
    forall c | c in Decode(text)
      ensures TransformOf(t, c) != U_SENTINEL
    {
      var i :| 0 <= i < |Decode(text)| && Decode(text)[i] == c;
      assert p.key[i] == KeyByte(t, c) && p.key[i] in p.key;
    }
  }

  lemma FoundAt(d: Dictionary, s: seq<Unit>, start: nat, maxLength: int, w: Candidate)
    requires Found(d, s, start, maxLength, w)
    ensures start + w.cuLength <= |s| && d.IsWord(s, start, start + w.cuLength)
  {
    hide Decode, Dictionary.Words, Dictionary.IsWord, Dictionary.ValueOf;
    var words := d.Words(s, start, start, 0, maxLength);
    var i :| 0 <= i < |words| && words[i] == w;
    WordsSound(d, s, start, start, 0, maxLength, i);
  }

  /** A dictionary of one word, the zero width joiner; the letter A is refused, and found as that word. */
  lemma LetterIsJoiner(v: int)
    ensures var d, s := Dictionary([Pair([0xff], v)], Offset(0x1000)), [0x41 as Unit];
      && TransformOf(d.transform, 0x41) == U_SENTINEL
      && Key(d.transform, [0x41]) == Key(d.transform, [0x200d]) == [0xff]
      && d.IsWord(s, 0, 1) && exists w :: Found(d, s, 0, 1, w) && w.cuLength == 1
  {
    hide Dictionary.Words;
    var d, s := Dictionary([Pair([0xff], v)], Offset(0x1000)), [0x41 as Unit];
    assert s[0..1] == s && s[1..] == [];
    assert Decode(s) == [0x41];
    assert Key(d.transform, [0x41]) == [0xff];
    assert d.words[0] in d.words;
    WordLengths(d, s, 0, 1, 1);
    var w :| w in d.Words(s, 0, 0, 0, 1) && w.cuLength == 1;
    assert Found(d, s, 0, 1, w);
  }
}
