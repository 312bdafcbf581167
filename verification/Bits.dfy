/**
 Bit arithmetic on the 32-bit table words. Shift amounts are written as machine
 words too: `Amount(k)` is the word whose numeric value is k (see AmountValue), so
 that every shift, mask and test below is decided on bit vectors only.
 */
module Bits {

  type Word = bv32

  /** The machine word with numeric value k. */
  function Amount(k: nat): (s: Word)
    requires k < 32
    ensures s < 32
    ensures k < 16 ==> s < 16
    ensures k < 8 ==> s < 8
    ensures k < 4 ==> s < 4
    ensures k < 2 ==> s < 2
  {
    if k == 0 then 0 else 2 * Amount(k / 2) + (if k % 2 == 0 then 0 else 1)
  }

  lemma DoubledWord(w: Word)
    requires w < 16
    ensures (2 * w) as int == 2 * (w as int)
    ensures (2 * w + 1) as int == 2 * (w as int) + 1
  {
  }

  lemma {:induction false} AmountValue(k: nat)
    requires k < 32
    ensures Amount(k) as int == k
  {
    if k > 0 {
      AmountValue(k / 2);
      DoubledWord(Amount(k / 2));
    }
  }

  lemma {:induction false} AmountLess(j: nat, k: nat)
    requires j < k < 32
    ensures Amount(j) < Amount(k)
  {
    if j / 2 < k / 2 {
      AmountLess(j / 2, k / 2);
    }
  }

  lemma {:induction false} AmountNext(k: nat)
    requires 0 < k < 32
    ensures Amount(k) == Amount(k - 1) + 1 && Amount(k) > 0
  {
    if k % 2 == 0 {
      assert (k - 1) / 2 == k / 2 - 1;
      AmountNext(k / 2);
    }
  }

  lemma {:induction false} AmountPlus16(j: nat)
    requires j < 16
    ensures Amount(j + 16) == Amount(j) + 16
  {
    if j == 0 {
      assert Amount(2) == 2 && Amount(4) == 4 && Amount(8) == 8;
    } else {
      AmountNext(j);
      AmountNext(j + 16);
      AmountPlus16(j - 1);
    }
  }

  /** w >> k, one place at a time; equal to the built-in shift by ShiftsAgree. */
  function ShiftRight(w: Word, k: nat): Word
    decreases k
  {
    if k == 0 then w else ShiftRight(w >> 1, k - 1)
  }

  /** w << k, one place at a time; equal to the built-in shift by ShiftsAgree. */
  function ShiftLeft(w: Word, k: nat): Word
    decreases k
  {
    if k == 0 then w else ShiftLeft(w << 1, k - 1)
  }

  lemma ShiftRightTwice(w: Word, s: Word, t: Word)
    requires 0 < s < 32 && t == s - 1
    ensures (w >> 1) >> t == w >> s
  {
  }

  lemma ShiftLeftTwice(w: Word, s: Word, t: Word)
    requires 0 < s < 32 && t == s - 1
    ensures (w << 1) << t == w << s
  {
  }

  lemma {:induction false} ShiftRightAgrees(w: Word, k: nat)
    requires k < 32
    ensures ShiftRight(w, k) == w >> Amount(k)
    decreases k
  {
    if k > 0 {
      hide Amount;
      AmountNext(k);
      ShiftRightTwice(w, Amount(k), Amount(k - 1));
      ShiftRightAgrees(w >> 1, k - 1);
    }
  }

  lemma {:induction false} ShiftLeftAgrees(w: Word, k: nat)
    requires k < 32
    ensures ShiftLeft(w, k) == w << Amount(k)
    decreases k
  {
    if k > 0 {
      hide Amount;
      AmountNext(k);
      ShiftLeftTwice(w, Amount(k), Amount(k - 1));
      ShiftLeftAgrees(w << 1, k - 1);
    }
  }

  /** Bit number s of w, where s is itself a machine word. */
  predicate BitAt(w: Word, s: Word)
    requires s < 32
  {
    (w >> s) & 1 == 1
  }

  lemma OrAt(a: Word, b: Word, s: Word)
    requires s < 32
    ensures BitAt(a | b, s) <==> BitAt(a, s) || BitAt(b, s)
  {
  }

  lemma AndAt(a: Word, b: Word, s: Word)
    requires s < 32
    ensures BitAt(a & b, s) <==> BitAt(a, s) && BitAt(b, s)
  {
  }

  lemma NotAt(a: Word, s: Word)
    requires s < 32
    ensures BitAt(!a, s) <==> !BitAt(a, s)
  {
  }

  lemma OneAt(j: Word, s: Word)
    requires s < 32 && j < 32
    ensures BitAt(1 << j, s) <==> j == s
  {
  }

  lemma LowMaskAt(j: Word, s: Word)
    requires s < 32 && j < 32
    ensures BitAt((1 << j) - 1, s) <==> s < j
  {
  }

  lemma HighMaskAt(j: Word, s: Word)
    requires s < 32 && j < 32
    ensures BitAt(!((1 << j) - 1), s) <==> j <= s
  {
  }

  lemma PairAt(j: Word, s: Word)
    requires j < 16 && s < 32
    ensures BitAt(0x1_0001 << j, s) <==> s == j || s == j + 16
  {
  }

  lemma TestAt(w: Word, one: Word, s: Word)
    requires s < 32 && one == 1 << s
    ensures w & one != 0 <==> BitAt(w, s)
  {
  }

  lemma TwoBitsAt(w: Word, shifted: Word, s: Word)
    requires s < 16 && shifted == w >> s
    ensures shifted & 0x1_0001 <= 1 <==> !BitAt(w, s + 16)
    ensures !BitAt(w, s + 16) ==> shifted & 0x1_0001 == if BitAt(w, s) then 1 else 0
  {
  }

  lemma AmountEqual(j: nat, k: nat)
    requires j < 32 && k < 32
    ensures Amount(j) == Amount(k) <==> j == k
    ensures Amount(j) < Amount(k) <==> j < k
  {
    if j < k {
      AmountLess(j, k);
    } else if k < j {
      AmountLess(k, j);
    }
  }

  /** Bit number k of w. */
  predicate Bit(w: Word, k: nat) {
    ShiftRight(w, k) & 1 == 1
  }

  /** Two amounts as words, and what shifting by them does. */
  lemma Amounts(j: nat, k: nat) returns (s: Word, t: Word)
    requires j < 32 && k < 32
    ensures s == Amount(j) && t == Amount(k)
    ensures s < 32 && t < 32 && (s == t <==> j == k) && (s < t <==> j < k)
    ensures j < 16 ==> s < 16 && (t == s + 16 <==> k == j + 16)
    ensures forall w :: ShiftLeft(w, j) == w << s
    ensures forall w :: ShiftRight(w, j) == w >> s
    ensures forall w :: Bit(w, k) <==> BitAt(w, t)
  {
    s, t := AmountPair(j, k);
    ShiftLeftBy(j, s);
    ShiftRightBy(j, s);
    ShiftRightBy(k, t);
  }

  lemma AmountPair(j: nat, k: nat) returns (s: Word, t: Word)
    requires j < 32 && k < 32
    ensures s == Amount(j) && t == Amount(k)
    ensures s < 32 && t < 32 && (s == t <==> j == k) && (s < t <==> j < k)
    ensures j < 16 ==> s < 16 && (t == s + 16 <==> k == j + 16)
  {
    s, t := Amount(j), Amount(k);
    AmountEqual(j, k);
    if j < 16 {
      AmountPlus16(j);
      AmountEqual(j + 16, k);
    }
  }

  lemma ShiftLeftBy(k: nat, s: Word)
    requires k < 32 && s == Amount(k) && s < 32
    ensures forall w :: ShiftLeft(w, k) == w << s
  {
    hide ShiftLeft, Amount;
    forall w
      ensures ShiftLeft(w, k) == w << s
    {
      ShiftLeftAgrees(w, k);
    }
  }

  lemma ShiftRightBy(k: nat, s: Word)
    requires k < 32 && s == Amount(k) && s < 32
    ensures forall w :: ShiftRight(w, k) == w >> s
    ensures forall w :: Bit(w, k) <==> BitAt(w, s)
  {
    hide ShiftRight, Amount;
    forall w
      ensures ShiftRight(w, k) == w >> s
    {
      ShiftRightAgrees(w, k);
    }
  }

  /** 1 << k */
  function One(k: nat): Word {
    ShiftLeft(1, k)
  }

  /** 0x10001 << k, which marks a mixed block in both halves of the word. */
  function Pair(k: nat): Word {
    ShiftLeft(0x1_0001, k)
  }

  /** (w >> k) & 0x10001: the two bits of a block. */
  function TwoBits(w: Word, k: nat): Word {
    ShiftRight(w, k) & 0x1_0001
  }

  function OrIf(word: Word, cond: bool, bits: Word): Word {
    if cond then word | bits else word
  }

  lemma OrIfBit(word: Word, cond: bool, bits: Word, k: nat)
    requires k < 32
    ensures Bit(OrIf(word, cond, bits), k) <==> Bit(word, k) || (cond && Bit(bits, k))
  {
    hide Bit, BitAt, ShiftRight, ShiftLeft, Amount;
    var _, t := Amounts(0, k);
    OrAt(word, bits, t);
  }

  lemma AndBit(a: Word, b: Word, k: nat)
    requires k < 32
    ensures Bit(a & b, k) <==> Bit(a, k) && Bit(b, k)
  {
    hide Bit, BitAt, ShiftRight, ShiftLeft, Amount;
    var _, t := Amounts(0, k);
    AndAt(a, b, t);
  }

  lemma NotBit(a: Word, k: nat)
    requires k < 32
    ensures Bit(!a, k) <==> !Bit(a, k)
  {
    hide Bit, BitAt, ShiftRight, ShiftLeft, Amount;
    var _, t := Amounts(0, k);
    NotAt(a, t);
  }

  lemma OneBit(j: nat, k: nat)
    requires j < 32 && k < 32
    ensures Bit(One(j), k) <==> j == k
  {
    hide Bit, BitAt, ShiftRight, ShiftLeft, Amount;
    var s, t := Amounts(j, k);
    OneAt(s, t);
  }

  lemma LowMaskBit(j: nat, k: nat)
    requires j < 32 && k < 32
    ensures Bit(One(j) - 1, k) <==> k < j
  {
    hide Bit, BitAt, ShiftRight, ShiftLeft, Amount;
    var s, t := Amounts(j, k);
    LowMaskAt(s, t);
  }

  lemma HighMaskBit(j: nat, k: nat)
    requires j < 32 && k < 32
    ensures Bit(!(One(j) - 1), k) <==> j <= k
  {
    hide Bit, BitAt, ShiftRight, ShiftLeft, Amount;
    var s, t := Amounts(j, k);
    HighMaskAt(s, t);
  }

  /** The word with the bits lead..limitLead-1. */
  function Rectangle(lead: nat, limitLead: nat): Word
    requires lead < limitLead <= 32
  {
    var bits := !(One(lead) - 1);
    if limitLead < 32 then bits & (One(limitLead) - 1) else bits
  }

  lemma RectangleBit(lead: nat, limitLead: nat, k: nat)
    requires lead < limitLead <= 32 && k < 32
    ensures Bit(Rectangle(lead, limitLead), k) <==> lead <= k < limitLead
  {
    HighMaskBit(lead, k);
    if limitLead < 32 {
      LowMaskBit(limitLead, k);
      AndBit(!(One(lead) - 1), One(limitLead) - 1, k);
    }
  }

  lemma PairBit(j: nat, k: nat)
    requires j < 16 && k < 32
    ensures Bit(Pair(j), k) <==> k == j || k == j + 16
  {
    hide Bit, BitAt, ShiftRight, ShiftLeft, Amount;
    var s, t := Amounts(j, k);
    PairAt(s, t);
  }

  lemma ZeroBit(k: nat)
    requires k < 32
    ensures !Bit(0, k)
  {
    hide Bit, ShiftRight, ShiftLeft, Amount;
    var _, t := Amounts(0, k);
    assert !BitAt(0, t);
  }

  lemma OneAmount(w: Word, k: nat) returns (s: Word)
    requires k < 32
    ensures s < 32 && One(k) == 1 << s && (Bit(w, k) <==> BitAt(w, s))
  {
    hide Bit, BitAt, ShiftRight, ShiftLeft, Amount;
    var t;
    s, t := Amounts(k, k);
  }

  lemma TestWord(w: Word, one: Word, s: Word, bit: bool)
    requires s < 32 && one == 1 << s && (bit <==> BitAt(w, s))
    ensures w & one != 0 <==> bit
  {
    hide *;
    TestAt(w, one, s);
  }

  lemma TestOne(w: Word, one: Word, k: nat)
    requires k < 32 && one == One(k)
    ensures w & one != 0 <==> Bit(w, k)
  {
    hide *;
    var s := OneAmount(w, k);
    TestWord(w, one, s, Bit(w, k));
  }

  /** Testing one bit with a mask, as in (w & (1 << k)) != 0. */
  lemma TestBit(w: Word, k: nat)
    requires k < 32
    ensures w & One(k) != 0 <==> Bit(w, k)
  {
    hide *;
    TestOne(w, One(k), k);
  }

  /** Reading a block's two bits: at most 1 exactly when the upper bit is clear. */
  lemma ReadTwoBits(w: Word, k: nat)
    requires k < 16
    ensures TwoBits(w, k) <= 1 <==> !Bit(w, k + 16)
    ensures TwoBits(w, k) <= 1 ==> TwoBits(w, k) == if Bit(w, k) then 1 else 0
  {
    hide Bit, BitAt, ShiftRight, ShiftLeft, Amount;
    var s, t := Amounts(k, k + 16);
    var s', t' := Amounts(k, k);
    TwoBitsAt(w, ShiftRight(w, k), s);
  }
}
