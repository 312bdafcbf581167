/** A cursor over the normalized form of a text, which normalizes one segment at a time. */
module Normalizer {
  import opened Utf16
  import opened UText

  const DONE := -1

  /** Normalization as a function, and where it can be split. */
  datatype Normalization = Normalization(normalize: seq<Unit> -> seq<Unit>, hasBoundaryBefore: int -> bool)
  {
    /** Does a new segment start with y after x? */
    ghost predicate Splits(x: seq<Unit>, y: seq<Unit>) {
      y != [] && Boundary(x + y, |x|) && hasBoundaryBefore(CodePointAt(y, 0))
    }

    ghost predicate SplitLaw(x: seq<Unit>, y: seq<Unit>) {
      Splits(x, y) ==> normalize(x + y) == normalize(x) + normalize(y) && Boundary(normalize(x + y), |normalize(x)|)
    }

    /** Text can be normalized segment by segment, and no segment disappears. */
    ghost predicate Lawful() {
      && normalize([]) == []
      && (forall x :: x != [] ==> normalize(x) != [])
      && forall x, y :: SplitLaw(x, y)
    }
  }

  /** i is the start or the end of the text, or of a segment. */
  ghost predicate IsBreak(n: Normalization, s: seq<Unit>, i: nat) {
    && Boundary(s, i)
    && (i == 0 || i == |s| || n.hasBoundaryBefore(CodePointAt(s, i)))
  }

  /** Normalizing up to a break, and from there on. */
  lemma NormalizeSplit(n: Normalization, s: seq<Unit>, i: nat, j: nat)
    requires n.Lawful() && IsBreak(n, s, i) && IsBreak(n, s, j) && i <= j
    ensures n.normalize(s[..j]) == n.normalize(s[..i]) + n.normalize(s[i..j])
    ensures Boundary(n.normalize(s[..j]), |n.normalize(s[..i])|)
  {
    var x, y := s[..i], s[i..j];
    assert s[..j] == x + y;
    assert n.SplitLaw(x, y);
    if i == j {
      assert y == [] && x + [] == x;
    } else if i == 0 {
      assert x == [] && [] + y == y;
    } else {
      assert CodePointAt(y, 0) == CodePointAt(s, i);
    }
  }

  class Normalizer {
    const norm2: Normalization
    const text: UText
    var currentIndex: nat
    var nextIndex: nat
    var buffer: seq<Unit>
    var bufferPos: nat

    ghost predicate Valid()
      reads this, text
    {
      && norm2.Lawful() && text.Valid()
      && currentIndex <= nextIndex && IsBreak(norm2, text.s, currentIndex) && IsBreak(norm2, text.s, nextIndex)
      && buffer == norm2.normalize(text.s[currentIndex..nextIndex])
      && Boundary(buffer, bufferPos)
    }

    /** The whole normalized text. */
    ghost function All(): seq<Unit> {
      norm2.normalize(text.s)
    }

    /** The position in the normalized text. */
    ghost function Position(): nat
      requires Valid()
      reads this, text
    {
      |norm2.normalize(text.s[..currentIndex])| + bufferPos
    }

    constructor (str: seq<Unit>, n: Normalization)
      requires n.Lawful()
      ensures Valid() && text.s == str && norm2 == n && fresh(text) && Position() == 0
    {
      norm2 := n;
      text := new UText(str);
      currentIndex, nextIndex, buffer, bufferPos := 0, 0, [], 0;
    }

    /** What is in the buffer is what is at the position. */
    lemma InBuffer()
      requires Valid()
      ensures Boundary(All(), Position())
      ensures bufferPos < |buffer| ==>
                && Position() < |All()| && CodePointAt(All(), Position()) == CodePointAt(buffer, bufferPos)
                && Next(All(), Position()) - Position() == Next(buffer, bufferPos) - bufferPos
      ensures bufferPos > 0 ==>
                && Position() > 0 && Position() - Previous(All(), Position()) == bufferPos - Previous(buffer, bufferPos)
                && CodePointAt(All(), Previous(All(), Position())) == CodePointAt(buffer, Previous(buffer, bufferPos))
      ensures bufferPos == |buffer| ==> Position() == |norm2.normalize(text.s[..nextIndex])|
      ensures bufferPos == 0 ==> Position() == |norm2.normalize(text.s[..currentIndex])|
    {
      var s := text.s;
      var before, after := norm2.normalize(s[..currentIndex]), norm2.normalize(s[nextIndex..]);
      NormalizeSplit(norm2, s, currentIndex, nextIndex);
      NormalizeSplit(norm2, s, nextIndex, |s|);
      assert s[..|s|] == s && s[nextIndex..|s|] == s[nextIndex..];
      Window(before, buffer, after, bufferPos);
    }

    /** The code point at the position, or DONE at the end. */
    method Current() returns (c: int)
      requires Valid()
      modifies this, text
      ensures Valid() && Position() == old(Position())
      ensures c == if Position() < |All()| then CodePointAt(All(), Position()) else DONE
    {
      hide Normalization.Lawful, CodePointAt, Next, Previous, PairAt;
      InBuffer();
      if bufferPos < |buffer| {
        return CodePointAt(buffer, bufferPos);
      }
      var more := NextNormalize();
      if more {
        InBuffer();
        c := CodePointAt(buffer, bufferPos);
      } else {
        c := DONE;
      }
    }

    /** The code point at the position; the position moves over it. */
    method Next32() returns (c: int)
      requires Valid()
      modifies this, text
      ensures Valid()
      ensures Position() <= |All()|
      ensures if old(Position()) < |All()| then
                c == CodePointAt(All(), old(Position())) && Position() == Next(All(), old(Position()))
              else c == DONE && Position() == old(Position())
    {
      hide Normalization.Lawful, CodePointAt, Next, Previous, PairAt;
      InBuffer();
      if bufferPos == |buffer| {
        var more := NextNormalize();
        if !more {
          InBuffer();
          return DONE;
        }
        InBuffer();
      }
      BoundaryStep(buffer, bufferPos);
      c := CodePointAt(buffer, bufferPos);
      UnitCount(buffer, bufferPos);
      bufferPos := bufferPos + U16Length(c);
      InBuffer();
    }

    /** The code point before the position; the position moves in front of it. */
    method Previous32() returns (c: int)
      requires Valid()
      modifies this, text
      ensures Valid()
      ensures if old(Position()) > 0 then
                && old(Position()) <= |All()| && Position() == Previous(All(), old(Position())) && c == CodePointAt(All(), Position())
              else c == DONE && Position() == old(Position())
    {
      hide Normalization.Lawful, CodePointAt, Next, Previous, PairAt;
      InBuffer();
      if bufferPos == 0 {
        var more := PreviousNormalize();
        if !more {
          return DONE;
        }
        InBuffer();
      }
      BoundaryStep(buffer, bufferPos);
      c := CodePointAt(buffer, Previous(buffer, bufferPos));
      UnitCount(buffer, Previous(buffer, bufferPos));
      bufferPos := bufferPos - U16Length(c);
    }

    method Reset()
      requires Valid()
      modifies this, text
      ensures Valid() && Position() == 0
    {
      text.SetNativeIndex(0);
      currentIndex, nextIndex := 0, 0;
      ClearBuffer();
      assert text.s[..0] == [];
    }

    method First() returns (c: int)
      requires Valid()
      modifies this, text
      ensures Valid() && c == if All() == [] then DONE else CodePointAt(All(), 0)
      ensures Position() == if All() == [] then 0 else Next(All(), 0)
    {
      Reset();
      c := Next32();
    }

    method Last() returns (c: int)
      requires Valid()
      modifies this, text
      ensures Valid() && Position() == if All() == [] then 0 else Previous(All(), |All()|)
      ensures c == if All() == [] then DONE else CodePointAt(All(), Position())
    {
      text.SetNativeIndex(|text.s|);
      currentIndex, nextIndex := |text.s|, |text.s|;
      ClearBuffer();
      assert text.s[..|text.s|] == text.s;
      c := Previous32();
    }

    /** From the start to DONE, all code points of the normalized text in order. */
    method CodePoints() returns (all: seq<int>)
      requires Valid()
      modifies this, text
      ensures Valid() && all == Decode(All()) && Position() == |All()|
    {
      hide Normalization.Lawful, CodePointAt, Next, Previous, PairAt, Decode;
      Reset();
      all := [];
      InBuffer();
      ghost var s := All();
      assert s[0..] == s;
      var c := 0;
      while c != DONE
        invariant Valid() && Boundary(s, Position()) && All() == s
        invariant all + Decode(s[Position()..]) == Decode(s)
        invariant c == DONE ==> Position() == |s|
        modifies this, text
        decreases |s| - Position(), c != DONE
      {
        ghost var p := Position();
        c := Next32();
        if c != DONE {
          BoundaryStep(s, p);
          BoundaryStep(s, Position());
          DecodePrevious(s, Position());
          all := all + [c];
        }
      }
      DecodeFirst(s[|s|..]);
    }

    method ClearBuffer()
      modifies this`buffer, this`bufferPos
      ensures buffer == [] && bufferPos == 0
    {
      buffer, bufferPos := [], 0;
    }

    /** Normalizes the next segment, if there is one. */
    method NextNormalize() returns (more: bool)
      requires Valid() && bufferPos == |buffer|
      modifies this, text
      ensures Valid() && Position() == old(Position()) && bufferPos == 0
      ensures more <==> old(nextIndex) < |text.s|
      ensures if more then buffer != [] else buffer == [] && Position() == |All()|
    {
      ghost var s := text.s;
      InBuffer();
      ClearBuffer();
      currentIndex := nextIndex;
      text.SetNativeIndex(nextIndex);
      if text.pos == |text.s| {
        assert s[..|s|] == s && s[|s|..] == [];
        return false;
      }
      var segment: seq<Unit>;
      segment := NextSegment();
      nextIndex := text.pos;
      buffer := norm2.normalize(segment);
      more := |buffer| > 0;
    }

    /** The text from a break to the next one. */
    method NextSegment() returns (segment: seq<Unit>)
      requires text.Valid() && text.pos < |text.s|
      modifies text
      ensures text.Valid() && old(text.pos) < text.pos && segment == text.s[old(text.pos)..text.pos]
      ensures IsBreak(norm2, text.s, text.pos)
    {
      hide PairAt, CodePointAt, Next;
      ghost var start := text.pos;
      BoundaryStep(text.s, text.pos);
      var from := text.pos;
      var c := text.Next32();
      segment := text.s[from..text.pos];
      while text.pos < |text.s|
        invariant text.Valid() && start < text.pos && segment == text.s[start..text.pos]
        modifies text
        decreases |text.s| - text.pos
      {
        from := text.pos;
        BoundaryStep(text.s, from);
        c := text.Next32();
        if norm2.hasBoundaryBefore(c) {
          c := text.Previous32();
          break;
        }
        segment := segment + text.s[from..text.pos];
      }
    }

    /** Normalizes the segment before, if there is one. */
    method PreviousNormalize() returns (more: bool)
      requires Valid() && bufferPos == 0
      modifies this, text
      ensures Valid() && Position() == old(Position()) && bufferPos == |buffer|
      ensures more <==> old(currentIndex) > 0
      ensures if more then buffer != [] else buffer == [] && Position() == 0
    {
      ghost var s := text.s;
      InBuffer();
      ClearBuffer();
      nextIndex := currentIndex;
      text.SetNativeIndex(currentIndex);
      if text.pos == 0 {
        assert s[..0] == [] && s[0..0] == [];
        return false;
      }
      var segment: seq<Unit>;
      segment := PreviousSegment();
      currentIndex := text.pos;
      buffer := norm2.normalize(segment);
      bufferPos := |buffer|;
      more := |buffer| > 0;
      NormalizeSplit(norm2, s, currentIndex, nextIndex);
    }

    /** The text from the last break before here up to here. */
    method PreviousSegment() returns (segment: seq<Unit>)
      requires text.Valid() && text.pos > 0
      modifies text
      ensures text.Valid() && text.pos < old(text.pos) && segment == text.s[text.pos..old(text.pos)]
      ensures IsBreak(norm2, text.s, text.pos)
    {
      hide PairAt, CodePointAt, Previous;
      ghost var end := text.pos;
      segment := [];
      while text.pos > 0
        invariant text.Valid() && text.pos <= end && segment == text.s[text.pos..end]
        modifies text
        decreases text.pos
      {
        var to := text.pos;
        BoundaryStep(text.s, to);
        var c := text.Previous32();
        segment := text.s[text.pos..to] + segment;
        if norm2.hasBoundaryBefore(c) {
          break;
        }
      }
    }
  }

  function U16Length(c: int): nat {
    if c <= 0xffff then 1 else 2
  }

  lemma UnitCount(s: seq<Unit>, i: nat)
    requires i < |s|
    ensures U16Length(CodePointAt(s, i)) == Next(s, i) - i
  {
  }

  /** A part of a sequence between two boundaries has the same code points as the whole. */
  lemma Window(before: seq<Unit>, middle: seq<Unit>, after: seq<Unit>, i: nat)
    requires Boundary(before + middle + after, |before|) && Boundary(before + middle + after, |before| + |middle|)
    requires Boundary(middle, i)
    ensures var all, j := before + middle + after, |before| + i;
      && Boundary(all, j)
      && (i < |middle| ==> CodePointAt(all, j) == CodePointAt(middle, i) && Next(all, j) - j == Next(middle, i) - i)
      && (i > 0 ==>
            && j - Previous(all, j) == i - Previous(middle, i)
            && CodePointAt(all, Previous(all, j)) == CodePointAt(middle, Previous(middle, i)))
  {
    var all := before + middle + after;
    assert forall k :: 0 <= k < |middle| ==> all[|before| + k] == middle[k];
  }
}
