/** Argument numbers, numeric values and argument types in decimal digits and letters. */
module MessageNumbers {
  import opened Utf16
  import opened MessageParts
  import G = MessageGrammar
  import opened MessageSyntax
  import opened MessageSkips

  /** More digits do not make a number smaller. */
  lemma {:induction false} DecimalGrows(t: Text, k: nat)
    requires AreDigits(t) && k <= |t|
    ensures 0 <= Decimal(t[..k]) <= Decimal(t)
    decreases |t|
  {
    if t == [] {
    } else if k == |t| {
      DecimalGrows(t[..k - 1], 0);
      assert t[..k] == t;
    } else {
      DecimalGrows(t[..|t| - 1], k);
      assert t[..|t| - 1][..k] == t[..k];
    }
  }

  lemma DecimalNext(t: Text, k: nat)
    requires k < |t|
    ensures Decimal(t[..k + 1]) == Decimal(t[..k]) * 10 + (t[k] as int - 0x30)
  {
    assert t[..k + 1][..k] == t[..k];
  }

  /** The digits from k on, after the number which the first k digits are. */
  lemma {:induction false} ArgDigitsRule(t: Text, k: nat, number: nat, bad: bool)
    requires k <= |t| && AreDigits(t[..k]) && number == Decimal(t[..k])
    ensures G.ArgDigits(t, k, number, bad) ==
      if !AreDigits(t) then -1
      else if bad || (k < |t| && Decimal(t[..|t| - 1]) >= 214748364) then -2
      else Decimal(t)
    decreases |t| - k
  {
    if k == |t| {
      assert t[..k] == t;
    } else if 0x30 <= t[k] <= 0x39 {
      DecimalNext(t, k);
      ArgDigitsRule(t, k + 1, number * 10 + (t[k] as int - 0x30), bad || number >= 214748364);
      if AreDigits(t) {
        DecimalGrows(t[..|t| - 1], k);
        assert t[..|t| - 1][..k] == t[..k];
      }
    }
  }

  /** A name which is no number is -1; a number with a leading zero, or which is too large, is -2. */
  lemma ArgNumberRule(t: Text)
    ensures G.ArgNumber(t) ==
      if t == [] then -2
      else if !AreDigits(t) then -1
      else if (t[0] == 0x30 && |t| > 1) || Decimal(t[..|t| - 1]) >= 214748364 then -2
      else Decimal(t)
  {
    if t != [] {
      DecimalNext(t, 0);
      if 0x30 <= t[0] <= 0x39 {
        ArgDigitsRule(t, 1, t[0] as int - 0x30, t[0] == 0x30);
        if |t| == 1 {
          assert t[..1] == t;
        }
      }
    }
  }

  /** The digits from index j on, after the value of the first j digits. */
  lemma {:induction false} SmallNumberRule(g: Grammar, start: nat, digits: Text, j: nat, negative: nat)
    requires negative <= 1 && start + |digits| <= |g.msg| && g.msg[start..start + |digits|] == digits
    requires j <= |digits| && AreDigits(digits[..j]) && 0 <= Decimal(digits[..j]) <= 0x7fff + negative
    ensures g.SmallNumber(start + j, start + |digits|, Decimal(digits[..j]), negative) ==
      if AreDigits(digits) && Decimal(digits) <= 0x7fff + negative then
        G.SmallInt(if negative == 1 then -Decimal(digits) else Decimal(digits))
      else G.DoubleNumber
    decreases |digits| - j
  {
    if j == |digits| {
      assert digits[..j] == digits;
    } else {
      assert g.msg[start + j] == digits[j] by {
        assert g.msg[start..start + |digits|][j] == g.msg[start + j];
      }
      DecimalNext(digits, j);
      if 0x30 <= digits[j] <= 0x39 {
        if AreDigits(digits) {
          DecimalGrows(digits, j + 1);
        }
        if Decimal(digits[..j + 1]) <= 0x7fff + negative {
          SmallNumberRule(g, start, digits, j + 1, negative);
        }
      }
    }
  }

  function Sign(t: Text): Text {
    if t != [] && (t[0] == 0x2d || t[0] == 0x2b) then t[..1] else []
  }

  /** A sign or none, and then digits, an infinity sign alone if that is allowed, or some other number of fewer than 128 units. */
  lemma NumberRule(g: Grammar, start: nat, limit: nat, allowInfinity: bool)
    requires start < limit <= |g.msg|
    ensures var t := g.msg[start..limit]; var n := Numeral(Sign(t), t[|Sign(t)|..]);
      g.NumberAt(start, limit, allowInfinity) ==
        if n.digits != [] && AreDigits(n.digits) && -0x8000 <= n.Value() <= 0x7fff then G.SmallInt(n.Value())
        else if n.digits == [0x221e] && allowInfinity then G.DoubleNumber
        else if n.digits != [] && n.digits[0] != 0x221e && |t| < 128 && g.parsesAsDouble(t) then G.DoubleNumber
        else G.BadNumber
  {
    var t := g.msg[start..limit];
    var sign, digits := Sign(t), t[|Sign(t)|..];
    var k := start + |sign|;
    assert g.msg[start] == t[0];
    assert g.msg[k..limit] == digits;
    if digits != [] {
      assert g.msg[k] == digits[0];
      var negative := if sign == [0x2d] then 1 else 0;
      assert Decimal(digits[..0]) == 0;
      SmallNumberRule(g, k, digits, 0, negative);
      if AreDigits(digits) {
        DecimalGrows(digits, 0);
      }
    }
  }

  /** A printed number is read back. */
  lemma NumeralRead(g: Grammar, i: nat, n: Numeral, after: Text, allowInfinity: bool, doubles: nat)
    requires Here(g, i, n.Print(), after) && n.Valid()
    ensures var e := i + |n.Print()|;
      i < e <= |g.msg|
      && g.NumberPart(i, e, allowInfinity, doubles) ==
           G.Ok(G.Piece([Leaf(ARG_INT, i, |n.Print()|, n.Value())], e, doubles))
  {
    hide Here, Decimal;
    HereSlice(g, i, n.Print(), after);
    var e := i + |n.Print()|;
    NumberRule(g, i, e, allowInfinity);
    var t := n.Print();
    assert Sign(t) == n.sign && t[|Sign(t)|..] == n.digits;
  }

  /** The units of a number are skipped. */
  lemma NumeralUnits(n: Numeral)
    requires n.Valid()
    ensures |n.Print()| > 0 && forall k :: 0 <= k < |n.Print()| ==> IsNumberUnit(n.Print()[k])
  {
    hide Decimal;
  }

  /** The argument types. */
  function TypeWithNumber(kind: int): G.ArgType
    requires 0 <= kind <= 5
  {
    match kind
    case 0 => G.NONE
    case 1 => G.SIMPLE
    case 2 => G.CHOICE
    case 3 => G.PLURAL
    case 4 => G.SELECT
    case _ => G.SELECTORDINAL
  }

  lemma WordSpells(t: Text, word: Text, letters: string)
    requires |word| == |letters| && forall k :: 0 <= k < |word| ==> word[k] as int == letters[k] as int
    ensures G.IsWord(t, word) <==> Spells(t, letters)
  {
    if |t| == |word| {
      forall k | 0 <= k < |t|
        ensures (t[k] == word[k] || t[k] as int == word[k] as int - 0x20) <==>
                (t[k] as int == letters[k] as int || t[k] as int + 0x20 == letters[k] as int)
      {
        assert word[k] as int == letters[k] as int;
      }
    }
  }

  /** The letters of the words for the types, in any case. */
  lemma TypeRule(letters: Text)
    ensures G.TypeOf(letters) == TypeWithNumber(TypeNumber(letters))
    ensures G.Code(G.TypeOf(letters)) == TypeNumber(letters)
  {
    hide G.IsWord, Spells;
    WordSpells(letters, G.kChoice, "choice");
    WordSpells(letters, G.kPlural, "plural");
    WordSpells(letters, G.kSelect, "select");
    OrdinalSpells(letters);
  }

  lemma OrdinalSpells(t: Text)
    ensures |t| == 13 && G.IsWord(t[..6], G.kSelect) && G.IsWord(t[6..], G.kOrdinal) <==> Spells(t, "selectordinal")
  {
    if |t| == 13 {
      hide G.IsWord;
      WordSpells(t, G.kSelect + G.kOrdinal, "selectordinal");
      TwoWords(t, G.kSelect, G.kOrdinal);
    }
  }

  lemma TwoWords(t: Text, a: Text, b: Text)
    requires |t| == |a| + |b|
    ensures G.IsWord(t, a + b) <==> G.IsWord(t[..|a|], a) && G.IsWord(t[|a|..], b)
  {
    if G.IsWord(t, a + b) {
      forall k | 0 <= k < |b|
        ensures t[|a|..][k] == b[k] || t[|a|..][k] as int == b[k] as int - 0x20
      {
        assert t[|a| + k] == t[|a|..][k] && (a + b)[|a| + k] == b[k];
      }
    }
  }
}
