/** The strings which a decomposed segment can be replaced by. */
module CanonicalEquivalents {
  import opened Permutations

  datatype Leftover = NoMatch | Left(rest: seq<int>)

  /** Decomposition, the characters whose decompositions start with a character, and character properties. */
  datatype Canon = Canon(
    nfd: seq<int> -> seq<int>, startSet: int -> set<int>, isSegmentStarter: int -> bool, combiningClass: int -> nat)
  {
    ghost predicate Idempotent(x: seq<int>) {
      nfd(nfd(x)) == nfd(x)
    }

    ghost predicate RightLaw(x: seq<int>, y: seq<int>) {
      nfd(x + y) == nfd(x + nfd(y))
    }

    ghost predicate LeftLaw(x: seq<int>, y: seq<int>) {
      nfd(x + y) == nfd(nfd(x) + y)
    }

    /** What is assumed about decomposition. */
    ghost predicate Lawful() {
      && (forall x :: Idempotent(x))
      && forall x, y :: RightLaw(x, y)
    }

    ghost predicate PartsDecomposed(x: seq<int>, y: seq<int>) {
      nfd(x + y) == x + y ==> nfd(x) == x && nfd(y) == y
    }

    ghost predicate Grows(x: seq<int>, y: seq<int>) {
      y != [] ==> |nfd(x + y)| > |nfd(x)|
    }

    /** What is assumed about decomposition where strings are cut into segments and put together again. */
    ghost predicate Composable() {
      && Lawful()
      && (forall x, y :: LeftLaw(x, y))
      && (forall x, y :: PartsDecomposed(x, y))
      && forall x, y :: Grows(x, y)
    }

    lemma ComposableDecomposes()
      requires Composable()
      ensures nfd([]) == [] && Decomposes()
    {
      assert Idempotent([]) && PartsDecomposed([], nfd([])) && [] + nfd([]) == nfd([]);
      forall c, d | d in startSet(c)
        ensures nfd([d]) != []
      {
        assert Grows([], [d]) && [] + [d] == [d];
      }
    }

    /** The characters in a start set have decompositions. */
    ghost predicate Decomposes() {
      forall c, d :: d in startSet(c) ==> nfd([d]) != []
    }

    /** What is left of the text when the characters of a decomposition are taken out in order. */
    function Take(decomp: seq<int>, text: seq<int>): (r: Leftover)
      requires decomp != []
      ensures r.Left? ==> |r.rest| == |text| - |decomp|
      decreases |text|
    {
      if text == [] then NoMatch
      else if text[0] == decomp[0] then
        if |decomp| == 1 then Left(text[1..]) else Take(decomp[1..], text[1..])
      else Prefixed([text[0]], Take(decomp, text[1..]))
    }

    /** Is r the segment, or does it come from putting a composite character in place of its decomposition? */
    ghost predicate Equivalent(segment: seq<int>, r: seq<int>)
      decreases |segment|, 2
    {
      r == segment || exists i: nat :: i < |segment| && EquivalentAt(segment, r, i)
    }

    ghost predicate EquivalentAt(segment: seq<int>, r: seq<int>, i: nat)
      requires i < |segment|
      decreases |segment|, 1
    {
      i < |r| && r[..i] == segment[..i] && r[i] in startSet(segment[i]) && Extracts(r[i], segment[i..], r[i + 1..])
    }

    /** Can the text be written as the character c and then the item? */
    ghost predicate Extracts(c: int, text: seq<int>, item: seq<int>)
      decreases |text|, 0
    {
      && nfd([c]) != []
      && match Take(nfd([c]), text)
         case NoMatch => false
         case Left(rest) => if rest == [] then item == [] else nfd([c] + rest) == text && Equivalent(rest, item)
    }

    /** Without a leftover, the text is the decomposition. */
    lemma {:induction false} TakeAll(decomp: seq<int>, text: seq<int>)
      requires decomp != [] && Take(decomp, text) == Left([])
      ensures text == decomp
      decreases |text|
    {
      if |decomp| > 1 {
        TakeAll(decomp[1..], text[1..]);
        assert text == [text[0]] + text[1..] && decomp == [decomp[0]] + decomp[1..];
      } else {
        assert text == [text[0]] + text[1..];
      }
    }

    /** Taking characters out does not add any. */
    lemma {:induction false} TakeKeeps(decomp: seq<int>, text: seq<int>)
      requires decomp != [] && Take(decomp, text).Left?
      ensures multiset(text) == multiset(decomp) + multiset(Take(decomp, text).rest)
      decreases |text|
    {
      assert text == [text[0]] + text[1..] && decomp == [decomp[0]] + decomp[1..];
      if text[0] != decomp[0] {
        TakeKeeps(decomp, text[1..]);
      } else if |decomp| > 1 {
        TakeKeeps(decomp[1..], text[1..]);
      }
    }

    /** Every equivalent string has the same decomposition as the segment. */
    lemma {:induction false} SameDecomposition(segment: seq<int>, r: seq<int>)
      requires Lawful() && Equivalent(segment, r)
      ensures nfd(r) == nfd(segment)
      decreases |segment|
    {
      if r != segment {
        var i: nat :| i < |segment| && EquivalentAt(segment, r, i);
        var c, text, item := r[i], segment[i..], r[i + 1..];
        assert Extracts(c, text, item);
        var rest := Take(nfd([c]), text).rest;
        if rest == [] {
          TakeAll(nfd([c]), text);
          assert Idempotent([c]) && [c] + item == [c];
        } else {
          SameDecomposition(rest, item);
          assert RightLaw([c], item) && RightLaw([c], rest) && Idempotent([c] + rest);
        }
        SamePrefix(segment[..i], [c] + item, text);
        assert r == segment[..i] + ([c] + item) && segment == segment[..i] + text;
      }
    }

    lemma SamePrefix(prefix: seq<int>, x: seq<int>, y: seq<int>)
      requires Lawful() && nfd(x) == nfd(y)
      ensures nfd(prefix + x) == nfd(prefix + y)
    {
      assert RightLaw(prefix, x) && RightLaw(prefix, y);
    }

    /** The strings which a segment can be replaced by. */
    ghost predicate Replaces(segment: seq<int>, r: seq<int>) {
      nfd(r) == segment && exists item :: Equivalent(segment, item) && Arranged(Place(item), true, combiningClass, r)
    }

    /** A decomposed segment is among the strings which it can be replaced by. */
    lemma ReplacesItself(segment: seq<int>)
      requires nfd(segment) == segment
      ensures Replaces(segment, segment)
    {
      var t := Place(segment);
      assert Rearranges(t, t, true, combiningClass) && Chars(t) == segment;
      assert Equivalent(segment, segment);
    }
  }

  function Prefixed(x: seq<int>, r: Leftover): Leftover {
    match r
    case NoMatch => NoMatch
    case Left(rest) => Left(x + rest)
  }

  /** If the decomposition of comp is in the text, all ways to write what is left of the text. */
  method Extract(g: Canon, comp: int, text: seq<int>) returns (found: bool, result: set<seq<int>>)
    requires g.Decomposes() && g.nfd([comp]) != []
    ensures forall item :: found && item in result <==> g.Extracts(comp, text, item)
    decreases |text|, 0
  {
    hide Canon.Decomposes, Canon.Equivalent;
    result := {};
    var temp := [comp];
    var decomp := g.nfd(temp);
    var left := TakeOut(g, decomp, text);
    match left {
    case NoMatch =>
      found := false;
    case Left(rest) =>
      temp := temp + rest;
      if |temp| == 1 {
        return true, {[]};
      }
      if g.nfd(temp) != text {
        return false, {};
      }
      result := GetEquivalents2(g, rest);
      found := true;
    }
  }

  /** Takes the characters of a decomposition out of the text, in order. */
  method TakeOut(g: Canon, decomp: seq<int>, text: seq<int>) returns (left: Leftover)
    requires decomp != []
    ensures left == g.Take(decomp, text)
  {
    hide Canon.Take;
    var temp: seq<int> := [];
    var decompPos, i := 0, 0;
    SliceAll(decomp);
    SliceAll(text);
    PrefixedNothing(g.Take(decomp, text));
    while i < |text|
      invariant i <= |text| && decompPos < |decomp|
      invariant g.Take(decomp, text) == Prefixed(temp, g.Take(decomp[decompPos..], text[i..]))
    {
      assert text[i..] != [] && decomp[decompPos..] != [];
      var cp := text[i];
      TakeStep(g, decomp[decompPos..], text[i..]);
      assert text[i..][1..] == text[i + 1..] && decomp[decompPos..][1..] == decomp[decompPos + 1..];
      i := i + 1;
      if cp == decomp[decompPos] {
        decompPos := decompPos + 1;
        if decompPos == |decomp| {
          return Left(temp + text[i..]);
        }
      } else {
        PrefixedTwice(temp, [cp], g.Take(decomp[decompPos..], text[i..]));
        temp := temp + [cp];
      }
    }
    assert text[i..] == [];
    TakeNothing(g, decomp[decompPos..]);
    left := NoMatch;
  }

  lemma TakeNothing(g: Canon, decomp: seq<int>)
    requires decomp != []
    ensures g.Take(decomp, []) == NoMatch
  {
  }

  lemma SliceAll(s: seq<int>)
    ensures s[0..] == s
  {
  }

  lemma PrefixedNothing(r: Leftover)
    ensures Prefixed([], r) == r
  {
    if r.Left? {
      assert [] + r.rest == r.rest;
    }
  }

  lemma PrefixedTwice(x: seq<int>, y: seq<int>, r: Leftover)
    ensures Prefixed(x, Prefixed(y, r)) == Prefixed(x + y, r)
  {
    if r.Left? {
      assert x + (y + r.rest) == (x + y) + r.rest;
    }
  }

  lemma TakeStep(g: Canon, decomp: seq<int>, text: seq<int>)
    requires decomp != [] && text != []
    ensures g.Take(decomp, text) ==
      if text[0] == decomp[0] then
        if |decomp| == 1 then Left(text[1..]) else g.Take(decomp[1..], text[1..])
      else Prefixed([text[0]], g.Take(decomp, text[1..]))
  {
  }

  /** Collects the segment and all strings in which composite characters take the place of their decompositions. */
  method GetEquivalents2(g: Canon, segment: seq<int>) returns (result: set<seq<int>>)
    requires g.Decomposes()
    ensures forall r :: r in result <==> g.Equivalent(segment, r)
    decreases |segment|, 2
  {
    hide Canon.Decomposes, Canon.Equivalent, Canon.EquivalentAt;
    result := {segment};
    var i := 0;
    while i < |segment|
      invariant i <= |segment|
      invariant forall r :: r in result <==> r == segment || EquivalentBefore(g, segment, r, i)
    {
      var added := EquivalentsAt(g, segment, i);
      MoreEquivalents(g, segment, i, result, added);
      result := result + added;
      i := i + 1;
    }
    forall r
      ensures r == segment || EquivalentBefore(g, segment, r, |segment|) <==> g.Equivalent(segment, r)
    {
      EquivalentIs(g, segment, r);
    }
  }

  /** The strings with a composite character at i. */
  method EquivalentsAt(g: Canon, segment: seq<int>, i: nat) returns (result: set<seq<int>>)
    requires g.Decomposes() && i < |segment|
    ensures forall r :: r in result <==> g.EquivalentAt(segment, r, i)
    decreases |segment|, 1
  {
    hide Canon.Extracts, Canon.Decomposes;
    result := {};
    var starts: set<int> := g.startSet(segment[i]);
    var iter: set<int> := starts;
    StartsDecompose(g, segment[i]);
    while iter != {}
      invariant iter <= starts && forall d :: d in iter ==> g.nfd([d]) != []
      invariant forall r :: r in result <==> i < |r| && g.EquivalentAt(segment, r, i) && r[i] !in iter
      decreases |iter|
    {
      var cp2 := GetCodepoint(iter);
      var found, remainder := Extract(g, cp2, segment[i..]);
      if found {
        var prefixed := PrefixItems(segment[..i] + [cp2], remainder);
        OneStart(g, segment, i, cp2, remainder, prefixed);
        result := result + prefixed;
      } else {
        NoStart(g, segment, i, cp2, remainder);
      }
      ghost var was := iter;
      iter := iter - {cp2};
      assert cp2 in was && cp2 !in iter && iter <= was;
    }
  }

  /** Some character of a set. */
  method GetCodepoint(codePoints: set<int>) returns (c: int)
    requires codePoints != {}
    ensures c in codePoints
  {
    SomeElement(codePoints);
    c :| c in codePoints;
  }

  lemma SomeElement(s: set<int>)
    ensures s == {} || exists x :: x in s
  {
    if forall x :: x !in s {
      assert s == {};
    }
  }

  lemma StartsDecompose(g: Canon, c: int)
    requires g.Decomposes()
    ensures forall d :: d in g.startSet(c) ==> g.nfd([d]) != []
  {
  }

  lemma OneStart(g: Canon, segment: seq<int>, i: nat, cp2: int, remainder: set<seq<int>>, prefixed: set<seq<int>>)
    requires i < |segment| && cp2 in g.startSet(segment[i])
    requires forall item :: item in remainder <==> g.Extracts(cp2, segment[i..], item)
    requires forall r :: r in prefixed <==> segment[..i] + [cp2] <= r && r[i + 1..] in remainder
    ensures forall r :: r in prefixed <==> i < |r| && g.EquivalentAt(segment, r, i) && r[i] == cp2
  {
    hide Canon.Extracts;
    var prefix := segment[..i] + [cp2];
    forall r
      ensures r in prefixed <==> i < |r| && g.EquivalentAt(segment, r, i) && r[i] == cp2
    {
      if i < |r| {
        assert prefix <= r <==> r[..i] == segment[..i] && r[i] == cp2 by {
          assert r[..i + 1] == r[..i] + [r[i]];
          if prefix <= r {
            assert r[..i + 1] == prefix;
            assert prefix[..i] == segment[..i] && prefix[i] == cp2;
          }
        }
      }
    }
  }

  lemma NoStart(g: Canon, segment: seq<int>, i: nat, cp2: int, remainder: set<seq<int>>)
    requires i < |segment| && forall item :: !g.Extracts(cp2, segment[i..], item)
    ensures forall r :: i < |r| && g.EquivalentAt(segment, r, i) ==> r[i] != cp2
  {
    hide Canon.Extracts;
  }

  /** Puts a prefix in front of all strings of a set. */
  method PrefixItems(prefix: seq<int>, items: set<seq<int>>) returns (result: set<seq<int>>)
    ensures forall r :: r in result <==> prefix <= r && r[|prefix|..] in items
  {
    result := {};
    var rest := items;
    while rest != {}
      invariant rest <= items
      invariant forall r :: r in result <==> prefix <= r && r[|prefix|..] in items && r[|prefix|..] !in rest
      decreases |rest|
    {
      var item :| item in rest;
      var toAdd := prefix + item;
      assert toAdd[|prefix|..] == item;
      assert forall r: seq<int> :: prefix <= r && r[|prefix|..] == item ==> r == toAdd;
      result := result + {toAdd};
      rest := rest - {item};
    }
  }

  ghost predicate EquivalentBefore(g: Canon, segment: seq<int>, r: seq<int>, n: nat)
    requires n <= |segment|
  {
    exists i: nat :: i < n && g.EquivalentAt(segment, r, i)
  }

  lemma MoreEquivalents(g: Canon, segment: seq<int>, i: nat, result: set<seq<int>>, added: set<seq<int>>)
    requires i < |segment|
    requires forall r :: r in result <==> r == segment || EquivalentBefore(g, segment, r, i)
    requires forall r :: r in added <==> g.EquivalentAt(segment, r, i)
    ensures forall r :: r in result + added <==> r == segment || EquivalentBefore(g, segment, r, i + 1)
  {
    hide Canon.EquivalentAt;
  }

  lemma EquivalentIs(g: Canon, segment: seq<int>, r: seq<int>)
    ensures r == segment || EquivalentBefore(g, segment, r, |segment|) <==> g.Equivalent(segment, r)
  {
    hide Canon.EquivalentAt;
  }

  /** The strings which a segment can be replaced by, in any order. */
  method GetEquivalents(g: Canon, segment: seq<int>) returns (ok: bool, finalResult: seq<seq<int>>)
    requires g.Decomposes()
    ensures ok == (finalResult != [])
    ensures forall r :: r in finalResult <==> g.Replaces(segment, r)
    ensures forall i, j :: 0 <= i < j < |finalResult| ==> finalResult[i] != finalResult[j]
  {
    hide Canon.Decomposes, Canon.Equivalent, Arranged;
    var basic := GetEquivalents2(g, segment);
    var result: set<seq<int>> := {};
    var rest := basic;
    while rest != {}
      invariant rest <= basic
      invariant forall r :: r in result <==> ReplacesFrom(g, segment, r, basic - rest)
      decreases |rest|
    {
      var item :| item in rest;
      var more := CanonicalPermutations(g, segment, item);
      MoreReplacements(g, segment, item, basic - rest, result, more);
      assert basic - rest + {item} == basic - (rest - {item});
      result := result + more;
      rest := rest - {item};
    }
    assert basic - {} == basic;
    forall r
      ensures r in result <==> g.Replaces(segment, r)
    {
    }
    finalResult := ToArray(result);
    ok := finalResult != [];
  }

  /** Can the segment be replaced by a rearrangement of one of the items? */
  ghost predicate ReplacesFrom(g: Canon, segment: seq<int>, r: seq<int>, items: set<seq<int>>) {
    g.nfd(r) == segment && exists item :: item in items && Arranged(Place(item), true, g.combiningClass, r)
  }

  lemma MoreReplacements(g: Canon, segment: seq<int>, item: seq<int>, items: set<seq<int>>,
                         result: set<seq<int>>, more: set<seq<int>>)
    requires forall r :: r in result <==> ReplacesFrom(g, segment, r, items)
    requires forall r :: r in more <==> g.nfd(r) == segment && Arranged(Place(item), true, g.combiningClass, r)
    ensures forall r :: r in result + more <==> ReplacesFrom(g, segment, r, items + {item})
  {
    hide Arranged;
  }

  /** The permutations of the item which have the segment as their decomposition. */
  method CanonicalPermutations(g: Canon, segment: seq<int>, item: seq<int>) returns (result: set<seq<int>>)
    ensures forall r :: r in result <==> g.nfd(r) == segment && Arranged(Place(item), true, g.combiningClass, r)
  {
    hide Arranged;
    var permutations := Permute(item, true, g.combiningClass, Place(item));
    result := {};
    var rest := permutations;
    while rest != {}
      invariant rest <= permutations
      invariant forall r :: r in result <==> r in permutations && r !in rest && g.nfd(r) == segment
      decreases |rest|
    {
      var possible :| possible in rest;
      if g.nfd(possible) == segment {
        result := result + {possible};
      }
      rest := rest - {possible};
    }
  }

  method ToArray(strings: set<seq<int>>) returns (a: seq<seq<int>>)
    ensures forall r :: r in a <==> r in strings
    ensures forall i, j :: 0 <= i < j < |a| ==> a[i] != a[j]
  {
    a := [];
    var rest := strings;
    while rest != {}
      invariant rest <= strings && (forall r :: r in a <==> r in strings && r !in rest)
      invariant forall i, j :: 0 <= i < j < |a| ==> a[i] != a[j]
      decreases |rest|
    {
      var x :| x in rest;
      a := a + [x];
      rest := rest - {x};
    }
  }
}
