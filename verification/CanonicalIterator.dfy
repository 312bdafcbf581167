/** Iteration over strings which are canonically equivalent to a source string. */
module CanonicalIterator {
  import opened CanonicalEquivalents
  import opened Odometer

  datatype Answer = Bogus | Text(s: seq<int>)

  /** The strings one after the other. */
  function Concat(items: seq<seq<int>>): (r: seq<int>) {
    if items == [] then [] else Concat(items[..|items| - 1]) + items[|items| - 1]
  }

  lemma ConcatMore(items: seq<seq<int>>, x: seq<int>)
    ensures Concat(items + [x]) == Concat(items) + x
  {
    assert (items + [x])[..|items|] == items;
  }

  /** The list cuts the source in front of every segment starter but the first character, and nowhere else. */
  ghost predicate Segmented(g: Canon, source: seq<int>, list: seq<seq<int>>) {
    && list != [] && Concat(list) == source
    && (forall k :: 0 <= k < |list| ==> Segment(g, list[k]))
    && if source == [] then list == [[]]
       else
         && (forall k :: 0 <= k < |list| ==> list[k] != [])
         && forall k :: 1 <= k < |list| ==> g.isSegmentStarter(list[k][0])
  }

  ghost predicate Segment(g: Canon, segment: seq<int>) {
    forall j :: 1 <= j < |segment| ==> !g.isSegmentStarter(segment[j])
  }

  function Sizes(pieces: seq<seq<seq<int>>>): (sizes: seq<int>)
    ensures |sizes| == |pieces| && forall i :: 0 <= i < |sizes| ==> sizes[i] == |pieces[i]|
  {
    seq(|pieces|, i requires 0 <= i < |pieces| => |pieces[i]|)
  }

  /** The chosen element of each piece. */
  ghost function Choice(pieces: seq<seq<seq<int>>>, digits: seq<int>): (items: seq<seq<int>>)
    requires InRange(digits, Sizes(pieces))
    ensures |items| == |pieces| && forall i :: 0 <= i < |items| ==> items[i] == pieces[i][digits[i]]
  {
    seq(|pieces|, i requires 0 <= i < |pieces| => pieces[i][digits[i]])
  }

  /** Each piece lists, without repetition, all strings which its segment can be replaced by. */
  ghost predicate Pieces(g: Canon, segments: seq<seq<int>>, pieces: seq<seq<seq<int>>>) {
    |pieces| == |segments| && forall i :: 0 <= i < |pieces| ==> Piece(g, segments[i], pieces[i])
  }

  ghost predicate Piece(g: Canon, segment: seq<int>, piece: seq<seq<int>>) {
    && piece != []
    && (forall r :: r in piece <==> g.Replaces(segment, r))
    && forall i, j :: 0 <= i < j < |piece| ==> piece[i] != piece[j]
  }

  /** Does each item replace its segment? */
  ghost predicate Chosen(g: Canon, segments: seq<seq<int>>, items: seq<seq<int>>) {
    |items| == |segments| && forall i :: 0 <= i < |items| ==> g.Replaces(segments[i], items[i])
  }

  /** Strings put together from replacements decompose to the same string as the segments. */
  lemma {:induction false} ChosenDecomposes(g: Canon, segments: seq<seq<int>>, items: seq<seq<int>>)
    requires g.Composable() && Chosen(g, segments, items)
    ensures g.nfd(Concat(items)) == g.nfd(Concat(segments))
    decreases |items|
  {
    hide Canon.Equivalent;
    if items != [] {
      var n := |items| - 1;
      ChosenDecomposes(g, segments[..n], items[..n]);
      var a, b, c, d := Concat(items[..n]), items[n], Concat(segments[..n]), segments[n];
      assert g.Replaces(d, b);
      assert g.LeftLaw(a, b) && g.LeftLaw(c, b) && g.RightLaw(c, b);
    }
  }

  /** No string is put together from replacements in two ways. */
  lemma {:induction false} ChosenOnce(g: Canon, segments: seq<seq<int>>, x: seq<seq<int>>, y: seq<seq<int>>)
    requires g.Composable() && Chosen(g, segments, x) && Chosen(g, segments, y) && Concat(x) == Concat(y)
    ensures x == y
    decreases |x|
  {
    hide Canon.Equivalent, Canon.Replaces;
    if x != [] {
      var n := |x| - 1;
      ChosenDecomposes(g, segments[..n], x[..n]);
      ChosenDecomposes(g, segments[..n], y[..n]);
      SameCut(g, Concat(x[..n]), x[n], Concat(y[..n]), y[n]);
      ChosenOnce(g, segments[..n], x[..n], y[..n]);
      assert x == x[..n] + [x[n]] && y == y[..n] + [y[n]];
    }
  }

  lemma SameCut(g: Canon, a: seq<int>, b: seq<int>, c: seq<int>, d: seq<int>)
    requires g.Composable() && a + b == c + d && g.nfd(a) == g.nfd(c)
    ensures a == c && b == d
  {
    CutEarlier(a, b, c, d);
    CutEarlier(c, d, a, b);
    assert |a| <= |c| ==> g.Grows(a, c[|a|..]);
    assert |c| <= |a| ==> g.Grows(c, a[|c|..]);
    assert b == (a + b)[|a|..] && d == (c + d)[|c|..];
  }

  lemma CutEarlier(a: seq<int>, b: seq<int>, c: seq<int>, d: seq<int>)
    requires a + b == c + d
    ensures |a| <= |c| ==> c == a + c[|a|..]
  {
    if |a| <= |c| {
      assert c == (c + d)[..|c|] && a == (a + b)[..|a|];
    }
  }

  /** The segments of a decomposed string are decomposed. */
  lemma {:induction false} SegmentsDecomposed(g: Canon, segments: seq<seq<int>>, i: nat)
    requires g.Composable() && g.nfd(Concat(segments)) == Concat(segments) && i < |segments|
    ensures g.nfd(segments[i]) == segments[i]
    decreases |segments|
  {
    var n := |segments| - 1;
    assert g.PartsDecomposed(Concat(segments[..n]), segments[n]);
    if i < n {
      SegmentsDecomposed(g, segments[..n], i);
    }
  }

  /** Cuts a decomposed string into segments. */
  method FindSegments(g: Canon, source: seq<int>) returns (list: seq<seq<int>>)
    requires source != []
    ensures Segmented(g, source, list)
  {
    hide Cut, Segmented;
    list := [];
    var start, i := 0, 1;
    NothingCut(g, source);
    while i < |source|
      invariant start < i <= |source| && Cut(g, source, list, start)
      invariant forall j :: start < j < i ==> !g.isSegmentStarter(source[j])
    {
      var cp := source[i];
      if g.isSegmentStarter(cp) {
        CutMore(g, source, list, start, i);
        list := list + [source[start..i]];
        start := i;
      }
      i := i + 1;
    }
    CutMore(g, source, list, start, i);
    list := list + [source[start..i]];
    AllCut(g, source, list);
  }

  /** Have segments up to the start been cut? */
  ghost predicate Cut(g: Canon, source: seq<int>, list: seq<seq<int>>, start: nat)
    requires start <= |source|
  {
    && Concat(list) == source[..start]
    && (forall k :: 0 <= k < |list| ==> Segment(g, list[k]) && list[k] != [])
    && (forall k :: 1 <= k < |list| ==> g.isSegmentStarter(list[k][0]))
    && (list != [] && start < |source| ==> g.isSegmentStarter(source[start]))
  }

  lemma NothingCut(g: Canon, source: seq<int>)
    ensures Cut(g, source, [], 0)
  {
  }

  lemma CutMore(g: Canon, source: seq<int>, list: seq<seq<int>>, start: nat, i: nat)
    requires start < i <= |source| && Cut(g, source, list, start)
    requires forall j :: start < j < i ==> !g.isSegmentStarter(source[j])
    requires i < |source| ==> g.isSegmentStarter(source[i])
    ensures Cut(g, source, list + [source[start..i]], i)
  {
    ConcatMore(list, source[start..i]);
    assert source[..start] + source[start..i] == source[..i];
    assert Segment(g, source[start..i]);
  }

  lemma AllCut(g: Canon, source: seq<int>, list: seq<seq<int>>)
    requires source != [] && Cut(g, source, list, |source|)
    ensures Segmented(g, source, list)
  {
    assert source[..|source|] == source;
  }

  /** The complete list of replacements of every segment. */
  method FindPieces(g: Canon, list: seq<seq<int>>) returns (pieces: seq<seq<seq<int>>>)
    requires g.Composable() && g.nfd(Concat(list)) == Concat(list)
    ensures Pieces(g, list, pieces)
  {
    hide Canon.Lawful, Canon.Composable, Canon.Decomposes, Canon.Replaces, Piece, Concat;
    g.ComposableDecomposes();
    pieces := [];
    var i := 0;
    while i < |list|
      invariant i == |pieces| <= |list| && forall k :: 0 <= k < i ==> Piece(g, list[k], pieces[k])
    {
      SegmentsDecomposed(g, list, i);
      g.ReplacesItself(list[i]);
      var ok, piece := GetEquivalents(g, list[i]);
      MakePiece(g, list[i], piece);
      pieces := pieces + [piece];
      i := i + 1;
    }
  }

  class CanonicalIterator {
    const g: Canon
    var source: seq<int>
    var done: bool
    var pieces: seq<seq<seq<int>>>
    var current: array<int>
    ghost var segments: seq<seq<int>>

    ghost predicate Valid()
      reads this, current
    {
      && g.nfd(source) == source && Segmented(g, source, segments)
      && Pieces(g, segments, pieces)
      && InRange(current[..], Sizes(pieces))
    }

    /** How many strings there are. */
    ghost function Count(): nat
      requires Valid()
      reads this, current
    {
      NumberDigits(current[..], Sizes(pieces));
      Total(Sizes(pieces))
    }

    /** The number of the string which is next. */
    ghost function Position(): (p: nat)
      requires Valid()
      reads this, current
      ensures p < Count()
    {
      NumberDigits(current[..], Sizes(pieces));
      Number(current[..], Sizes(pieces))
    }

    /** The string with this number. */
    ghost function Nth(k: nat): seq<int>
      requires Valid() && k < Count()
      reads this, current
    {
      DigitsNumber(k, Sizes(pieces));
      Concat(Choice(pieces, Digits(k, Sizes(pieces))))
    }

    /** Is the string put together from replacements of the source's segments? */
    ghost predicate Offers(r: seq<int>)
      reads this
    {
      exists items :: Chosen(g, segments, items) && r == Concat(items)
    }

    constructor (g: Canon, newSource: seq<int>)
      requires g.Composable()
      ensures Valid() && fresh(current) && this.g == g
      ensures source == g.nfd(newSource) && !done && Position() == 0
    {
      this.g := g;
      source, done, pieces, segments, current := [], false, [], [], new int[0];
      new;
      SetSource(newSource);
    }

    /** Starts over with the decomposed form of a new string. */
    method SetSource(newSource: seq<int>)
      requires g.Composable()
      modifies this
      ensures Valid() && fresh(current)
      ensures source == g.nfd(newSource) && !done && Position() == 0
    {
      hide Canon.Lawful, Canon.Composable, Canon.Decomposes, Canon.Replaces, Piece, Segmented;
      source := g.nfd(newSource);
      done := false;
      DecomposedSource(g, newSource);
      if newSource == [] {
        pieces := [[[]]];
        segments := [[]];
        current := new int[1](_ => 0);
        EmptyPiece(g);
      } else {
        var list := FindSegments(g, source);
        segments := list;
        SegmentedConcat(g, source, list);
        current := new int[|list|](_ => 0);
        pieces := FindPieces(g, list);
      }
      PiecesSizes(g, segments, pieces);
      assert current[..] == Zeros(|pieces|);
      ZeroNumber(Sizes(pieces));
    }

    /** Starts over. */
    method Reset()
      requires Valid()
      modifies this`done, current
      ensures Valid() && !done && Position() == 0
    {
      hide Segmented, Piece;
      done := false;
      PiecesSizes(g, segments, pieces);
      var i := 0;
      while i < current.Length
        invariant 0 <= i <= current.Length && forall k :: 0 <= k < i ==> current[k] == 0
        modifies current
      {
        current[i] := 0;
        i := i + 1;
      }
      assert current[..] == Zeros(|pieces|);
      ZeroNumber(Sizes(pieces));
    }

    /** The next string, bogus when there are no more; the last piece changes fastest. */
    method Next() returns (s: Answer)
      requires Valid()
      modifies this`done, current
      ensures Valid()
      ensures old(done) ==> s == Bogus && done && Position() == old(Position())
      ensures !old(done) ==> s == Text(old(Nth(Position())))
      ensures !old(done) ==> done == (old(Position()) + 1 == Count())
      ensures !old(done) ==> Position() == if done then 0 else old(Position()) + 1
    {
      hide Segmented, Pieces, Piece, Digits, Number, Total, Concat;
      if done {
        return Bogus;
      }
      NumberDigits(current[..], Sizes(pieces));
      LastNumber(current[..], Sizes(pieces));
      var buffer := Combination();
      FindNext();
      s := Text(buffer);
    }

    /** Counts the odometer up by one; after the last combination it starts over. */
    method FindNext()
      requires InRange(current[..], Sizes(pieces)) && !done
      modifies this`done, current
      ensures InRange(current[..], Sizes(pieces))
      ensures done == old(AllLast(current[..], Sizes(pieces)))
      ensures Number(current[..], Sizes(pieces)) == if done then 0 else old(Number(current[..], Sizes(pieces))) + 1
    {
      hide Number, Total;
      ghost var before, sizes := current[..], Sizes(pieces);
      var i := |pieces| - 1;
      while true
        invariant -1 <= i < |pieces| && !done
        invariant forall j :: 0 <= j <= i ==> current[j] == before[j]
        invariant forall j :: i < j < |pieces| ==> before[j] == sizes[j] - 1 && current[j] == 0
        decreases i
      {
        if i < 0 {
          done := true;
          break;
        }
        current[i] := current[i] + 1;
        if current[i] < |pieces[i]| {
          assert current[..i] == before[..i];
          CarryAddsOne(before, current[..], sizes, i);
          break;
        }
        current[i] := 0;
        i := i - 1;
      }
      if done {
        assert current[..] == Zeros(|pieces|);
        ZeroNumber(sizes);
      }
    }

    /** Puts the current string together. */
    method Combination() returns (buffer: seq<int>)
      requires Valid()
      ensures buffer == Nth(Position())
    {
      hide Segmented, Pieces, Piece, Digits, Number, Total;
      NumberDigits(current[..], Sizes(pieces));
      ghost var items := Choice(pieces, current[..]);
      buffer := [];
      var i := 0;
      while i < |pieces|
        invariant 0 <= i <= |pieces| && buffer == Concat(items[..i])
      {
        ConcatMore(items[..i], items[i]);
        assert items[..i + 1] == items[..i] + [items[i]];
        buffer := buffer + pieces[i][current[i]];
        i := i + 1;
      }
      assert items[..i] == items;
    }

    /** Calls Next from the start until there are no more strings. */
    method AllStrings() returns (all: seq<seq<int>>)
      requires Valid() && g.Composable()
      modifies this`done, current
      ensures Valid() && done && |all| == Count()
      ensures forall r :: r in all <==> Offers(r)
      ensures forall i, j :: 0 <= i < j < |all| ==> all[i] != all[j]
      ensures forall r :: r in all ==> g.nfd(r) == source
    {
      hide Canon.Composable, Segmented, Pieces, Piece, Digits, Number, Total, Concat, Sizes;
      Reset();
      all := [];
      ghost var count := Count();
      var s := Next();
      while s.Text?
        invariant Valid() && Count() == count
        invariant s.Text? ==> |all| < count && s.s == Nth(|all|)
        invariant s.Text? ==> if |all| + 1 == count then done else !done && Position() == |all| + 1
        invariant s.Bogus? ==> done && |all| == count
        invariant forall k :: 0 <= k < |all| ==> all[k] == Nth(k)
        decreases count - |all|
      {
        all := all + [s.s];
        s := Next();
      }
      AllOffered(all);
    }

    lemma AllOffered(all: seq<seq<int>>)
      requires Valid() && g.Composable() && |all| == Count() && forall k :: 0 <= k < |all| ==> all[k] == Nth(k)
      ensures forall r :: r in all <==> Offers(r)
      ensures forall i, j :: 0 <= i < j < |all| ==> all[i] != all[j]
      ensures forall r :: r in all ==> g.nfd(r) == source
    {
      hide Canon.Composable, Segmented, Pieces, Piece, Digits, Number, Total, Concat, Sizes;
      forall r | r in all
        ensures Offers(r) && g.nfd(r) == source
      {
        var k: nat :| k < |all| && all[k] == r;
        NthOffered(k);
      }
      forall r | Offers(r)
        ensures r in all
      {
        var k := OfferedAt(r);
        assert all[k] == r;
      }
      forall i, j | 0 <= i < j < |all|
        ensures all[i] != all[j]
      {
        NthOnce(i, j);
      }
    }

    /** Every string that is returned is offered, and decomposes to the source. */
    lemma NthOffered(k: nat)
      requires Valid() && g.Composable() && k < Count()
      ensures Offers(Nth(k)) && g.nfd(Nth(k)) == source
    {
      hide Canon.Composable, Canon.Replaces;
      DigitsNumber(k, Sizes(pieces));
      var items := Choice(pieces, Digits(k, Sizes(pieces)));
      ChoiceChosen(g, segments, pieces, Digits(k, Sizes(pieces)));
      ChosenDecomposes(g, segments, items);
    }

    /** Every string that is offered is returned. */
    lemma OfferedAt(r: seq<int>) returns (k: nat)
      requires Valid() && Offers(r)
      ensures k < Count() && r == Nth(k)
    {
      hide Canon.Replaces, Digits, Number, Total, Segmented, Concat;
      var items :| Chosen(g, segments, items) && r == Concat(items);
      var digits := ChosenChoice(g, segments, pieces, items);
      NumberDigits(digits, Sizes(pieces));
      k := Number(digits, Sizes(pieces));
    }

    /** Strings with different numbers are different. */
    lemma NthOnce(i: nat, j: nat)
      requires Valid() && g.Composable() && i < j < Count()
      ensures Nth(i) != Nth(j)
    {
      hide Canon.Composable, Canon.Replaces, Digits, Number, Total, Segmented, Pieces, Concat;
      var sizes := Sizes(pieces);
      DigitsNumber(i, sizes);
      DigitsNumber(j, sizes);
      var x, y := Digits(i, sizes), Digits(j, sizes);
      if Nth(i) == Nth(j) {
        ChoiceChosen(g, segments, pieces, x);
        ChoiceChosen(g, segments, pieces, y);
        ChosenOnce(g, segments, Choice(pieces, x), Choice(pieces, y));
        SameChoice(g, segments, pieces, x, y);
        assert false;
      }
    }
  }

  lemma DecomposedSource(g: Canon, newSource: seq<int>)
    requires g.Composable()
    ensures g.nfd(g.nfd(newSource)) == g.nfd(newSource) && (g.nfd(newSource) == [] <==> newSource == [])
  {
    g.ComposableDecomposes();
    assert g.Idempotent(newSource) && g.Grows([], newSource) && [] + newSource == newSource;
  }

  lemma SegmentedConcat(g: Canon, source: seq<int>, list: seq<seq<int>>)
    requires Segmented(g, source, list)
    ensures list != [] && Concat(list) == source
  {
  }

  lemma EmptyPiece(g: Canon)
    requires g.Composable()
    ensures g.nfd([]) == [] && Segmented(g, [], [[]]) && Piece(g, [], [[]])
  {
    g.ComposableDecomposes();
    g.ReplacesItself([]);
    forall r | g.Replaces([], r)
      ensures r == []
    {
      assert g.Grows([], r) && [] + r == r;
    }
    assert Concat([[]]) == [];
  }

  lemma MakePiece(g: Canon, segment: seq<int>, piece: seq<seq<int>>)
    requires g.Replaces(segment, segment)
    requires forall r :: r in piece <==> g.Replaces(segment, r)
    requires forall i, j :: 0 <= i < j < |piece| ==> piece[i] != piece[j]
    ensures Piece(g, segment, piece)
  {
    assert segment in piece;
  }

  lemma PiecesSizes(g: Canon, segments: seq<seq<int>>, pieces: seq<seq<seq<int>>>)
    requires Pieces(g, segments, pieces)
    ensures Positive(Sizes(pieces)) && InRange(Zeros(|pieces|), Sizes(pieces))
  {
    forall i | 0 <= i < |pieces|
      ensures |pieces[i]| > 0
    {
      assert Piece(g, segments[i], pieces[i]);
    }
  }

  lemma ChoiceChosen(g: Canon, segments: seq<seq<int>>, pieces: seq<seq<seq<int>>>, digits: seq<int>)
    requires Pieces(g, segments, pieces) && InRange(digits, Sizes(pieces))
    ensures Chosen(g, segments, Choice(pieces, digits))
  {
    hide Canon.Replaces;
    forall i | 0 <= i < |pieces|
      ensures g.Replaces(segments[i], pieces[i][digits[i]])
    {
      assert Piece(g, segments[i], pieces[i]);
    }
  }

  lemma SameChoice(g: Canon, segments: seq<seq<int>>, pieces: seq<seq<seq<int>>>, x: seq<int>, y: seq<int>)
    requires Pieces(g, segments, pieces) && InRange(x, Sizes(pieces)) && InRange(y, Sizes(pieces))
    requires Choice(pieces, x) == Choice(pieces, y)
    ensures x == y
  {
    hide Canon.Replaces;
    forall i | 0 <= i < |pieces|
      ensures x[i] == y[i]
    {
      assert Piece(g, segments[i], pieces[i]);
      assert Choice(pieces, x)[i] == Choice(pieces, y)[i];
    }
  }

  lemma ChosenChoice(g: Canon, segments: seq<seq<int>>, pieces: seq<seq<seq<int>>>, items: seq<seq<int>>)
      returns (digits: seq<int>)
    requires Pieces(g, segments, pieces) && Chosen(g, segments, items)
    ensures InRange(digits, Sizes(pieces)) && Choice(pieces, digits) == items
  {
    hide Canon.Replaces;
    digits := [];
    while |digits| < |pieces|
      invariant |digits| <= |pieces|
      invariant forall i :: 0 <= i < |digits| ==> 0 <= digits[i] < |pieces[i]| && pieces[i][digits[i]] == items[i]
    {
      var n := |digits|;
      assert Piece(g, segments[n], pieces[n]) && items[n] in pieces[n];
      var d :| 0 <= d < |pieces[n]| && pieces[n][d] == items[n];
      digits := digits + [d];
    }
  }
}
