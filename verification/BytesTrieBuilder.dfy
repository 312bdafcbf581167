/** The public side of the trie builder: adding strings, sorting them, refusing duplicates, building. */
module BytesTrieBuilder {
  import opened Basics
  import opened Trie
  import opened TrieCodec
  import opened TrieFormat
  import opened TrieElements
  import opened TrieBuffer
  import T = TrieBuilder

  datatype Error = NoError | IndexOutOfBounds | IllegalArgument | NoWritePermission

  /** A string in the strings buffer, after its length in one byte or, at an inverted offset, in two. */
  datatype Element = Element(stringOffset: int, value: int)

  function LengthOffset(offset: int): nat {
    if offset >= 0 then offset else -1 - offset
  }

  predicate LengthFits(strings: seq<Byte>, offset: int) {
    LengthOffset(offset) + (if offset >= 0 then 0 else 1) < |strings|
  }

  function StringLength(strings: seq<Byte>, offset: int): nat
    requires LengthFits(strings, offset)
  {
    var at := LengthOffset(offset);
    if offset >= 0 then strings[at] else strings[at] as int * 0x100 + strings[at + 1]
  }

  function DataOffset(offset: int): nat {
    LengthOffset(offset) + if offset >= 0 then 1 else 2
  }

  predicate StringFits(strings: seq<Byte>, offset: int) {
    LengthFits(strings, offset) && DataOffset(offset) + StringLength(strings, offset) <= |strings|
  }

  function StringAt(strings: seq<Byte>, offset: int): seq<Byte>
    requires StringFits(strings, offset)
  {
    var at := DataOffset(offset);
    strings[at..at + StringLength(strings, offset)]
  }

  ghost predicate AllFit(strings: seq<Byte>, elements: seq<Element>) {
    forall i :: 0 <= i < |elements| ==> StringFits(strings, elements[i].stringOffset) && IsInt32(elements[i].value)
  }

  function PairOf(strings: seq<Byte>, element: Element): Pair
    requires StringFits(strings, element.stringOffset)
  {
    Pair(StringAt(strings, element.stringOffset), element.value)
  }

  /** What the elements stand for. */
  function PairsOf(strings: seq<Byte>, elements: seq<Element>): (r: seq<Pair>)
    requires AllFit(strings, elements)
    ensures |r| == |elements|
    ensures forall i :: 0 <= i < |r| ==> r[i] == PairOf(strings, elements[i])
  {
    seq(|elements|, i requires 0 <= i < |elements| => PairOf(strings, elements[i]))
  }

  /** Strings which are there already stay the same when more bytes are appended. */
  lemma MoreStrings(strings: seq<Byte>, more: seq<Byte>, elements: seq<Element>)
    requires AllFit(strings, elements)
    ensures AllFit(strings + more, elements) && PairsOf(strings + more, elements) == PairsOf(strings, elements)
  {
    forall i | 0 <= i < |elements|
      ensures StringFits(strings + more, elements[i].stringOffset)
      ensures PairOf(strings + more, elements[i]) == PairOf(strings, elements[i])
    {
      var o := elements[i].stringOffset;
      assert StringFits(strings, o);
      assert (strings + more)[DataOffset(o)..DataOffset(o) + StringLength(strings, o)] == StringAt(strings, o);
    }
  }

  /** A string is read back from behind its length. */
  lemma StringRoundTrip(strings: seq<Byte>, s: seq<Byte>)
    requires |s| <= 0xffff
    ensures var (offset, r) := Appended(strings, s);
      strings <= r && StringFits(r, offset) && StringAt(r, offset) == s
  {
    var (offset, r) := Appended(strings, s);
    assert r[LengthOffset(offset)] == if |s| > 0xff then |s| / 0x100 else |s|;
    assert |s| > 0xff ==> r[LengthOffset(offset) + 1] == |s| % 0x100;
    assert r[DataOffset(offset)..] == s;
  }

  function Appended(strings: seq<Byte>, s: seq<Byte>): (int, seq<Byte>) {
    if |s| > 0xff then (-1 - |strings|, strings + [|s| / 0x100 % 0x100] + [|s| % 0x100] + s)
    else (|strings|, strings + [|s|] + s)
  }

  lemma {:induction false} LessAfter(a: seq<int>, b: seq<int>, i: nat)
    requires i <= |a| && i <= |b| && a[..i] == b[..i]
    ensures Less(a, b) == Less(a[i..], b[i..])
  {
    if i > 0 {
      assert a[0] == a[..i][0] && b[0] == b[..i][0];
      assert a[1..][..i - 1] == a[..i][1..] && b[1..][..i - 1] == b[..i][1..];
      LessAfter(a[1..], b[1..], i - 1);
    }
  }

  lemma {:induction false} LessTransitive(a: seq<int>, b: seq<int>, c: seq<int>)
    requires !Less(b, a) && !Less(c, b)
    ensures !Less(c, a)
  {
    if a != [] && b != [] && c != [] && a[0] == b[0] == c[0] {
      LessTransitive(a[1..], b[1..], c[1..]);
    }
  }

  lemma {:induction false} LessTotal(a: seq<int>, b: seq<int>)
    ensures Less(a, b) || Less(b, a) || a == b
    ensures !(Less(a, b) && Less(b, a))
  {
    if a != [] && b != [] && a[0] == b[0] {
      LessTotal(a[1..], b[1..]);
      assert a == [a[0]] + a[1..] && b == [b[0]] + b[1..];
    }
  }

  ghost predicate WeaklySorted(pairs: seq<Pair>) {
    forall i, j :: 0 <= i < j < |pairs| ==> !Less(pairs[j].key, pairs[i].key)
  }

  ghost predicate Duplicate(pairs: seq<Pair>) {
    exists i, j :: 0 <= i < j < |pairs| && pairs[i].key == pairs[j].key
  }

  lemma {:induction false} CountTwo(s: seq<Pair>, x: Pair)
    requires multiset(s)[x] >= 2
    ensures exists i, j :: 0 <= i < j < |s| && s[i] == s[j] == x
  {
    var n := |s| - 1;
    assert s == s[..n] + [s[n]];
    if s[n] == x {
      assert x in multiset(s[..n]);
      var i :| 0 <= i < n && s[..n][i] == x;
      assert s[i] == s[n] == x;
    } else {
      CountTwo(s[..n], x);
      var i, j :| 0 <= i < j < n && s[..n][i] == s[..n][j] == x;
      assert s[i] == s[j] == x;
    }
  }

  lemma TwoCount(s: seq<Pair>, i: nat, j: nat)
    requires i < j < |s| && s[i] == s[j]
    ensures multiset(s)[s[i]] >= 2
  {
    assert s == s[..j] + [s[j]] + s[j + 1..];
    assert s[..j][i] == s[i];
    assert s[i] in multiset(s[..j]);
  }

  /** Whether there are duplicate strings does not depend on the order. */
  lemma DuplicateMoved(a: seq<Pair>, b: seq<Pair>)
    requires multiset(a) == multiset(b) && Duplicate(a)
    ensures Duplicate(b)
  {
    var i, j :| 0 <= i < j < |a| && a[i].key == a[j].key;
    if a[i] == a[j] {
      TwoCount(a, i, j);
      CountTwo(b, a[i]);
    } else {
      assert a[i] in multiset(b) && a[j] in multiset(b);
      var k :| 0 <= k < |b| && b[k] == a[i];
      var l :| 0 <= l < |b| && b[l] == a[j];
      assert b[if k < l then k else l].key == b[if k < l then l else k].key;
    }
  }

  lemma StrictlySorted(pairs: seq<Pair>)
    requires WeaklySorted(pairs)
    requires forall i :: 0 < i < |pairs| ==> pairs[i - 1].key != pairs[i].key
    ensures Sorted(pairs) && !Duplicate(pairs)
  {
    forall i, j | 0 <= i < j < |pairs|
      ensures Less(pairs[i].key, pairs[j].key) && pairs[i].key != pairs[j].key
    {
      assert pairs[j - 1].key != pairs[j].key;
      LessTotal(pairs[j - 1].key, pairs[j].key);
      LessTotal(pairs[i].key, pairs[j].key);
      LessIrreflexive(pairs[i].key);
      assert i < j - 1 ==> !Less(pairs[j - 1].key, pairs[i].key);
    }
  }

  class BytesTrieBuilder {
    var strings: seq<Byte>
    var elements: seq<Element>
    var built: seq<Byte>

    ghost predicate Valid()
      reads this
    {
      AllFit(strings, elements)
    }

    /** The pairs which have been added. */
    ghost function Added(): seq<Pair>
      requires Valid()
      reads this
    {
      PairsOf(strings, elements)
    }

    constructor ()
      ensures Valid() && Added() == [] && built == []
    {
      strings, elements, built := [], [], [];
    }

    /** Adds a string of at most 0xffff bytes; after any other error the builder must not be used. */
    method Add(s: seq<Byte>, value: int) returns (error: Error)
      requires Valid() && IsInt32(value)
      modifies this
      ensures error == if |built| > 0 then NoWritePermission else if |s| > 0xffff then IndexOutOfBounds else NoError
      ensures Valid() && built == old(built)
      ensures Added() == if error == NoError then old(Added()) + [Pair(s, value)] else old(Added())
    {
      if |built| > 0 {
        return NoWritePermission;
      }
      var length := |s|;
      if length > 0xffff {
        return IndexOutOfBounds;
      }
      ghost var before := strings;
      var offset := |strings|;
      if length > 0xff {
        offset := -1 - offset;
        strings := strings + [length / 0x100 % 0x100];
      }
      strings := strings + [length % 0x100];
      strings := strings + s;
      assert (offset, strings) == Appended(before, s);
      StringRoundTrip(before, s);
      MoreStrings(before, strings[|before|..], elements);
      assert before + strings[|before|..] == strings;
      elements := elements + [Element(offset, value)];
      assert Added() == old(Added()) + [Pair(s, value)];
      error := NoError;
    }

    /** The difference at the first different byte, or else the difference of the lengths. */
    method CompareStringTo(x: Element, y: Element) returns (diff: int)
      requires StringFits(strings, x.stringOffset) && StringFits(strings, y.stringOffset)
      ensures diff < 0 <==> Less(PairOf(strings, x).key, PairOf(strings, y).key)
      ensures diff == 0 <==> PairOf(strings, x).key == PairOf(strings, y).key
    {
      var thisString, otherString := StringAt(strings, x.stringOffset), StringAt(strings, y.stringOffset);
      var lengthDiff := |thisString| - |otherString|;
      var commonLength := if lengthDiff <= 0 then |thisString| else |otherString|;
      var i := 0;
      while i < commonLength && thisString[i] == otherString[i]
        invariant i <= commonLength && thisString[..i] == otherString[..i]
      {
        i := i + 1;
      }
      LessAfter(thisString, otherString, i);
      if i < commonLength {
        diff := thisString[i] as int - otherString[i];
      } else {
        diff := lengthDiff;
        assert |thisString| == |otherString| ==> thisString[..i] == thisString && otherString[..i] == otherString;
      }
    }

    /** Sorts the elements by their strings. */
    method SortElements()
      requires Valid()
      modifies this`elements
      ensures Valid() && WeaklySorted(Added()) && multiset(Added()) == multiset(old(Added()))
    {
      hide PairsOf, PairOf;
      var sorted: seq<Element> := [];
      var n := 0;
      while n < |elements|
        invariant n <= |elements| && AllFit(strings, sorted) && AllFit(strings, elements[..n])
        invariant WeaklySorted(PairsOf(strings, sorted))
        invariant multiset(PairsOf(strings, sorted)) == multiset(PairsOf(strings, elements[..n]))
        modifies {}
      {
        var j := Position(sorted, elements[n]);
        SortStep(strings, elements, n, sorted, j);
        sorted := sorted[..j] + [elements[n]] + sorted[j..];
        n := n + 1;
      }
      assert elements[..n] == elements;
      elements := sorted;
    }

    /** Where to insert an element into a sorted list. */
    method Position(sorted: seq<Element>, x: Element) returns (j: nat)
      requires AllFit(strings, sorted) && StringFits(strings, x.stringOffset) && IsInt32(x.value)
      requires WeaklySorted(PairsOf(strings, sorted))
      ensures j <= |sorted|
      ensures forall i :: 0 <= i < j ==> !Less(PairOf(strings, x).key, PairsOf(strings, sorted)[i].key)
      ensures forall i :: j <= i < |sorted| ==> !Less(PairsOf(strings, sorted)[i].key, PairOf(strings, x).key)
    {
      hide WeaklySorted, PairsOf, PairOf, Less;
      ghost var p, key := PairsOf(strings, sorted), PairOf(strings, x).key;
      j := |sorted|;
      while j > 0
        invariant j <= |sorted|
        invariant forall i :: j <= i < |sorted| ==> !Less(p[i].key, key)
      {
        var diff := CompareStringTo(x, sorted[j - 1]);
        assert p[j - 1] == PairOf(strings, sorted[j - 1]);
        LessTotal(key, p[j - 1].key);
        if diff >= 0 {
          NotBefore(p, j, key);
          return;
        }
        j := j - 1;
      }
    }

    /** Are two neighbours the same string? */
    method HasDuplicates() returns (found: bool)
      requires Valid() && |elements| > 0 && WeaklySorted(Added())
      ensures found <==> Duplicate(Added())
      ensures !found ==> Sorted(Added())
    {
      var prev := StringAt(strings, elements[0].stringOffset);
      var i := 1;
      while i < |elements|
        invariant 1 <= i <= |elements| && prev == Added()[i - 1].key
        invariant forall k :: 0 < k < i ==> Added()[k - 1].key != Added()[k].key
      {
        var current := StringAt(strings, elements[i].stringOffset);
        if prev == current {
          assert Added()[i - 1].key == Added()[i].key;
          return true;
        }
        prev := current;
        i := i + 1;
      }
      StrictlySorted(Added());
      found := false;
    }

    /** Sorts and serializes everything which has been added, unless that has been done already. */
    method BuildBytes() returns (error: Error, ghost tree: Node)
      requires Valid()
      modifies this
      ensures Valid() && multiset(Added()) == multiset(old(Added()))
      ensures old(built) != [] ==> error == NoError && built == old(built) && Added() == old(Added())
      ensures old(built) == [] ==>
                error == if old(Added()) == [] then IndexOutOfBounds
                         else if Duplicate(old(Added())) then IllegalArgument else NoError
      ensures error != NoError ==> built == []
      ensures old(built) == [] && error == NoError ==>
                Sorted(Added()) && Pairs(tree) == Added() && (|built| <= kMaxThreeByteDelta ==> NodeAt(built, 0, tree))
    {
      tree := Final(0);
      if |built| > 0 {
        return NoError, tree;
      }
      if |elements| == 0 {
        return IndexOutOfBounds, tree;
      }
      ghost var before := Added();
      SortElements();
      var found := HasDuplicates();
      if found {
        DuplicateMoved(Added(), before);
        return IllegalArgument, tree;
      }
      if Duplicate(before) {
        DuplicateMoved(before, Added());
      }
      built, tree := Serialize();
      error := NoError;
    }

    /** Serializes the sorted elements into a new buffer. */
    method Serialize() returns (bytes: seq<Byte>, ghost tree: Node)
      requires Valid() && Sorted(Added()) && |elements| > 0
      ensures Pairs(tree) == Added() && (|bytes| <= kMaxThreeByteDelta ==> NodeAt(bytes, 0, tree))
    {
      hide NodeAt;
      var capacity := if |strings| < 1024 then 1024 else |strings|;
      var pairs := PairsOf(strings, elements);
      BytePairs(strings, elements);
      var builder := new T.TrieBuilder(pairs, capacity);
      var offset;
      offset, tree := builder.WriteNode(0, |pairs|, 0);
      AllSuffixes(pairs);
      bytes := builder.out.bytes[builder.out.bytes.Length - builder.out.bytesLength..];
    }
  }

  lemma PairsInsert(strings: seq<Byte>, elements: seq<Element>, j: nat, x: Element)
    requires AllFit(strings, elements) && j <= |elements| && StringFits(strings, x.stringOffset) && IsInt32(x.value)
    ensures var p, r := PairsOf(strings, elements), elements[..j] + [x] + elements[j..];
      && AllFit(strings, r) && PairsOf(strings, r) == p[..j] + [PairOf(strings, x)] + p[j..]
      && multiset(PairsOf(strings, r)) == multiset(p) + multiset{PairOf(strings, x)}
  {
    var p, r := PairsOf(strings, elements), elements[..j] + [x] + elements[j..];
    assert AllFit(strings, r);
    assert PairsOf(strings, r) == p[..j] + [PairOf(strings, x)] + p[j..];
    assert p == p[..j] + p[j..];
  }

  lemma NotBefore(p: seq<Pair>, j: nat, key: seq<int>)
    requires WeaklySorted(p) && 0 < j <= |p| && !Less(key, p[j - 1].key)
    ensures forall i :: 0 <= i < j ==> !Less(key, p[i].key)
  {
    forall i | 0 <= i < j
      ensures !Less(key, p[i].key)
    {
      if i < j - 1 {
        LessTransitive(p[i].key, p[j - 1].key, key);
      }
    }
  }

  /** Inserting the next element at its position. */
  lemma SortStep(strings: seq<Byte>, elements: seq<Element>, n: nat, sorted: seq<Element>, j: nat)
    requires AllFit(strings, elements) && AllFit(strings, sorted)
    requires n < |elements| && AllFit(strings, elements[..n]) && j <= |sorted| && WeaklySorted(PairsOf(strings, sorted))
    requires forall i :: 0 <= i < j ==> !Less(PairOf(strings, elements[n]).key, PairsOf(strings, sorted)[i].key)
    requires forall i :: j <= i < |sorted| ==> !Less(PairsOf(strings, sorted)[i].key, PairOf(strings, elements[n]).key)
    requires multiset(PairsOf(strings, sorted)) == multiset(PairsOf(strings, elements[..n]))
    ensures var r := sorted[..j] + [elements[n]] + sorted[j..];
      && AllFit(strings, r) && WeaklySorted(PairsOf(strings, r)) && AllFit(strings, elements[..n + 1])
      && multiset(PairsOf(strings, r)) == multiset(PairsOf(strings, elements[..n + 1]))
  {
    hide WeaklySorted, PairOf, PairsOf;
    PairsInsert(strings, sorted, j, elements[n]);
    PairsExtend(strings, elements, n);
    SortedInsert(PairsOf(strings, sorted), j, PairOf(strings, elements[n]));
  }

  lemma PairsExtend(strings: seq<Byte>, elements: seq<Element>, n: nat)
    requires AllFit(strings, elements) && n < |elements| && AllFit(strings, elements[..n])
    ensures AllFit(strings, elements[..n + 1])
    ensures multiset(PairsOf(strings, elements[..n + 1])) ==
            multiset(PairsOf(strings, elements[..n])) + multiset{PairOf(strings, elements[n])}
  {
    assert AllFit(strings, elements[..n + 1]);
    assert PairsOf(strings, elements[..n + 1]) == PairsOf(strings, elements[..n]) + [PairOf(strings, elements[n])];
  }

  lemma SortedInsert(p: seq<Pair>, j: nat, x: Pair)
    requires WeaklySorted(p) && j <= |p|
    requires forall i :: 0 <= i < j ==> !Less(x.key, p[i].key)
    requires forall i :: j <= i < |p| ==> !Less(p[i].key, x.key)
    ensures WeaklySorted(p[..j] + [x] + p[j..])
  {
  }

  lemma BytePairs(strings: seq<Byte>, elements: seq<Element>)
    requires AllFit(strings, elements) && Sorted(PairsOf(strings, elements))
    ensures Elements(PairsOf(strings, elements))
    ensures elements != [] ==> Group(PairsOf(strings, elements), 0, |elements|, 0)
  {
  }

  lemma AllSuffixes(e: seq<Pair>)
    requires forall i :: 0 <= i < |e| ==> |e[i].key| >= 0
    ensures Suffixes(e, 0, |e|, 0) == e
  {
    forall i | 0 <= i < |e|
      ensures Suffixes(e, 0, |e|, 0)[i] == e[i]
    {
      assert e[i].key[0..] == e[i].key;
    }
  }
}
