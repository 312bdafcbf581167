/** Whole runs: build a trie from added strings, then read it back with the iterator or the cursor. */
module TrieRoundTrip {
  import opened Basics
  import opened Trie
  import opened TrieCodec
  import opened TrieFormat
  import opened B = BytesTrieBuilder
  import C = BytesTrie
  import I = TrieIterator
  import L = TrieLimit

  /** Keys of a serialized trie consist of bytes. */
  lemma {:induction false} NodeByteKeys(b: seq<Byte>, pos: nat, n: Node)
    requires NodeAt(b, pos, n)
    ensures C.ByteKeys(Pairs(n))
    decreases n, 1
  {
    hide BranchAt, ValueFits, ValueAt, IsFinalAt, SkipValue;
    match n
    case Final(_) =>
    case Intermediate(_, next) => NodeByteKeys(b, SkipValue(b, pos), next);
    case Linear(bytes, next) =>
      NodeByteKeys(b, pos + 1 + |bytes|, next);
      assert forall k :: 0 <= k < |bytes| ==> bytes[k] == b[pos + 1 + k];
    case Branch(kids) => BranchByteKeys(b, AfterBranchHead(b, pos), kids);
  }

  lemma {:induction false} BranchByteKeys(b: seq<Byte>, pos: nat, kids: seq<Kid>)
    requires BranchAt(b, pos, kids)
    ensures C.ByteKeys(KidPairs(kids))
    decreases kids, 0
  {
    hide KidAt, ListedKidAt, ValueFits, ValueAt, IsFinalAt, SkipValue, DeltaFits, DeltaAt, SkipDelta;
    if |kids| > kMaxBranchLinearSubNodeLength {
      var half := |kids| / 2;
      BranchByteKeys(b, JumpByDelta(b, pos + 1), kids[..half]);
      BranchByteKeys(b, SkipDelta(b, pos + 1), kids[half..]);
      KidPairsSplit(kids, half);
    } else {
      KidByteKeys(b, pos + 1, kids[0], |kids| > 1);
      if |kids| > 1 {
        BranchByteKeys(b, SkipValue(b, pos + 1), kids[1..]);
      }
    }
  }

  lemma {:induction false} KidByteKeys(b: seq<Byte>, pos: nat, kid: Kid, listed: bool)
    requires if listed then ValueFits(b, pos) && ListedKidAt(b, pos, kid) else KidAt(b, pos, kid)
    requires 0 <= kid.key < 0x100
    ensures C.ByteKeys(OneKidPairs(kid))
    decreases kid, 2
  {
    if !listed {
      NodeByteKeys(b, pos, kid.node);
    } else if !IsFinalAt(b, pos) {
      NodeByteKeys(b, SkipValue(b, pos) + ValueAt(b, pos), kid.node);
    }
  }

  lemma {:induction false} KidPairsSplit(kids: seq<Kid>, i: nat)
    requires i <= |kids|
    ensures KidPairs(kids) == KidPairs(kids[..i]) + KidPairs(kids[i..])
  {
    if i > 0 {
      KidPairsSplit(kids[1..], i - 1);
      assert kids[..i][1..] == kids[1..][..i - 1];
      assert kids[i..] == kids[1..][i - 1..];
    } else {
      assert kids[0..] == kids;
    }
  }

  ghost predicate Addable(adds: seq<Pair>) {
    && C.ByteKeys(adds)
    && forall i :: 0 <= i < |adds| ==> |adds[i].key| <= 0xffff && IsInt32(adds[i].value)
  }

  method AddAll(adds: seq<Pair>) returns (builder: B.BytesTrieBuilder)
    requires Addable(adds)
    ensures fresh(builder) && builder.Valid() && builder.built == [] && builder.Added() == adds
  {
    hide Addable, AllFit, B.BytesTrieBuilder.Added;
    builder := new B.BytesTrieBuilder();
    var i := 0;
    while i < |adds|
      invariant i <= |adds| && builder.Valid() && builder.built == [] && builder.Added() == adds[..i]
      modifies builder
    {
      AddableAt(adds, i);
      var error := builder.Add(adds[i].key, adds[i].value);
      NextAdded(adds, i);
      i := i + 1;
    }
    assert adds[..i] == adds;
  }

  lemma AddableAt(adds: seq<Pair>, i: nat)
    requires Addable(adds) && i < |adds|
    ensures |adds[i].key| <= 0xffff && IsInt32(adds[i].value)
    ensures forall k :: 0 <= k < |adds[i].key| ==> 0 <= adds[i].key[k] < 0x100
  {
  }

  lemma NextAdded(adds: seq<Pair>, i: nat)
    requires i < |adds|
    ensures adds[..i] + [Pair(adds[i].key, adds[i].value)] == adds[..i + 1]
  {
  }

  /** Adds all pairs and builds the trie. */
  method Build(adds: seq<Pair>) returns (error: Error, bytes: seq<Byte>, ghost tree: Node)
    requires Addable(adds)
    ensures error == if adds == [] then IndexOutOfBounds else if Duplicate(adds) then IllegalArgument else NoError
    ensures error == NoError ==> Sorted(Pairs(tree)) && multiset(Pairs(tree)) == multiset(adds)
    ensures error == NoError && |bytes| <= kMaxThreeByteDelta ==> NodeAt(bytes, 0, tree)
  {
    hide NodeAt, Sorted, AllFit, Duplicate, PairsOf, Addable;
    var builder := AddAll(adds);
    error, tree := builder.BuildBytes();
    bytes := builder.built;
  }

  /** Is p delivered? A length limit above 0 cuts longer strings off. */
  ghost predicate Delivered(tree: Node, maxLength: int, p: Pair) {
    if maxLength <= 0 then p in Pairs(tree) else L.Limited(Pairs(tree), maxLength, p)
  }

  lemma DeliveredPairs(tree: Node, maxLength: int)
    requires WellFormed(tree)
    ensures var all := I.CutPairs(tree, I.Room(maxLength, []));
      && Sorted(all) && (forall p :: p in all <==> Delivered(tree, maxLength, p)) && (maxLength <= 0 ==> all == Pairs(tree))
  {
    hide I.CutPairs, Pairs, Sorted, WellFormed, L.Limited;
    var room := I.Room(maxLength, []);
    L.CutSorted(tree, room);
    if maxLength <= 0 {
      I.NoLimit(tree, room);
    }
    forall p
      ensures p in I.CutPairs(tree, room) <==> Delivered(tree, maxLength, p)
    {
      if maxLength > 0 {
        L.CutMember(tree, room, p);
      }
    }
  }

  /**
   The iterator delivers every pair of a serialized trie once, in order, and then stops; with a length limit it
   delivers the pairs which are short enough, and once each longer string, cut off.
   */
  method AllPairs(bytes: seq<Byte>, maxLength: int, ghost tree: Node) returns (all: seq<Pair>)
    requires NodeAt(bytes, 0, tree) && forall p :: Delivered(tree, maxLength, p) ==> |p.key| <= 0xffff
    ensures Sorted(all) && forall p :: p in all <==> Delivered(tree, maxLength, p)
    ensures maxLength <= 0 ==> all == Pairs(tree)
  {
    hide NodeAt, Pairs, I.CutPairs, Sorted, Delivered, I.Iterator.Todo, I.Iterator.Valid;
    NodeAtWellFormed(bytes, 0, tree);
    DeliveredPairs(tree, maxLength);
    ghost var pairs := I.CutPairs(tree, I.Room(maxLength, []));
    var iter := new I.Iterator(bytes, maxLength, tree);
    all := [];
    var more := true;
    while more
      invariant iter.Valid() && all + iter.Todo() == pairs
      invariant more || iter.Todo() == []
      modifies iter
      decreases |iter.Todo()|, more
    {
      ghost var todo := iter.Todo();
      more := iter.Next();
      if more {
        all := all + [Pair(iter.str, iter.value)];
        assert todo == [todo[0]] + todo[1..];
      }
    }
    assert all + [] == all;
  }

  /** What is iterated after building is what was added, sorted. */
  method BuildAndIterate(adds: seq<Pair>) returns (error: Error, bytes: seq<Byte>, all: seq<Pair>)
    requires Addable(adds)
    ensures error == if adds == [] then IndexOutOfBounds else if Duplicate(adds) then IllegalArgument else NoError
    ensures error == NoError && |bytes| <= kMaxThreeByteDelta ==> Sorted(all) && multiset(all) == multiset(adds)
  {
    hide NodeAt, Pairs, Sorted, Duplicate;
    ghost var tree;
    error, bytes, tree := Build(adds);
    all := [];
    if error == NoError && |bytes| <= kMaxThreeByteDelta {
      forall p | p in Pairs(tree)
        ensures |p.key| <= 0xffff
      {
        assert p in multiset(adds);
      }
      all := AllPairs(bytes, 0, tree);
    }
  }

  /** Matching the bytes of s one at a time. */
  method Lookup(bytes: seq<Byte>, ghost tree: Node, s: seq<Byte>) returns (result: Result, value: int)
    requires NodeAt(bytes, 0, tree)
    ensures result == Status(Pairs(tree), s)
    ensures result in {FinalValue, IntermediateValue} ==> Pair(s, value) in Pairs(tree)
  {
    hide NodeAt, Pairs, Status, Residual;
    var trie := new C.BytesTrie(bytes, tree);
    result := trie.Current();
    var i := 0;
    while i < |s|
      invariant i <= |s| && trie.Valid() && trie.matched == s[..i] && trie.root == tree
      invariant result == Status(Pairs(tree), s[..i])
      modifies trie
    {
      result := trie.Next(s[i]);
      i := i + 1;
    }
    assert s[..i] == s;
    value := 0;
    if result in {FinalValue, IntermediateValue} {
      value := trie.GetValue();
    }
  }

  /** A built trie answers for every byte string as the map of what was added. */
  method BuildAndLookup(adds: seq<Pair>, s: seq<Byte>) returns (error: Error, bytes: seq<Byte>, result: Result, value: int)
    requires Addable(adds)
    ensures error == if adds == [] then IndexOutOfBounds else if Duplicate(adds) then IllegalArgument else NoError
    ensures error == NoError && |bytes| <= kMaxThreeByteDelta ==>
              && result == Status(adds, s)
              && (result in {FinalValue, IntermediateValue} ==> Pair(s, value) in adds)
  {
    hide NodeAt, Pairs, Sorted, Duplicate, Status;
    ghost var tree;
    error, bytes, tree := Build(adds);
    result, value := NoMatch, 0;
    if error == NoError && |bytes| <= kMaxThreeByteDelta {
      result, value := Lookup(bytes, tree, s);
      StatusReordered(Pairs(tree), adds, s);
      assert Pair(s, value) in multiset(Pairs(tree)) ==> Pair(s, value) in adds;
    }
  }

  lemma StatusReordered(a: seq<Pair>, b: seq<Pair>, s: seq<int>)
    requires multiset(a) == multiset(b)
    ensures Status(a, s) == Status(b, s)
  {
    assert forall p :: p in a <==> p in multiset(a);
    assert forall p :: p in b <==> p in multiset(b);
    assert HasPrefix(a, s) == HasPrefix(b, s);
    assert HasKey(a, s) == HasKey(b, s);
    assert HasLonger(a, s) == HasLonger(b, s);
  }
}
