/** Iteration with a length limit: which strings are delivered whole, and which are cut off. */
module TrieLimit {
  import opened Trie
  import opened TrieCodec
  import opened TrieFormat
  import I = TrieIterator

  /** A pair which is short enough, or a cut string, which is not in the map itself but goes on in it. */
  ghost predicate Limited(pairs: seq<Pair>, room: int, p: Pair) {
    || (p in pairs && |p.key| <= room)
    || (|p.key| == room && p.value == -1 && HasLonger(pairs, p.key) && !HasKey(pairs, p.key))
  }

  /** Strings of a whole prefix and of what follows it. */
  lemma LimitedPrepend(prefix: seq<int>, pairs: seq<Pair>, room: int, p: Pair)
    requires |prefix| <= room
    ensures Limited(Prepend(prefix, pairs), room, p) <==>
              prefix <= p.key && Limited(pairs, room - |prefix|, Pair(p.key[|prefix|..], p.value))
  {
    var all := Prepend(prefix, pairs);
    PrependMember(prefix, pairs, p);
    forall q | q in all && |p.key| == room
      ensures p.key <= q.key ==> prefix <= p.key
    {
      var i :| 0 <= i < |all| && all[i] == q;
      assert q.key[..|prefix|] == prefix;
      assert p.key <= q.key ==> p.key[..|prefix|] == q.key[..|prefix|];
    }
    if prefix <= p.key {
      PrependKey(prefix, pairs, p.key[|prefix|..]);
      assert prefix + p.key[|prefix|..] == p.key;
    }
  }

  lemma PrependMember(prefix: seq<int>, pairs: seq<Pair>, p: Pair)
    ensures p in Prepend(prefix, pairs) <==> prefix <= p.key && Pair(p.key[|prefix|..], p.value) in pairs
  {
    var all := Prepend(prefix, pairs);
    if p in all {
      var i :| 0 <= i < |all| && all[i] == p;
      assert p.key[|prefix|..] == pairs[i].key;
    }
    if prefix <= p.key && Pair(p.key[|prefix|..], p.value) in pairs {
      var i :| 0 <= i < |pairs| && pairs[i] == Pair(p.key[|prefix|..], p.value);
      assert all[i].key == p.key;
    }
  }

  lemma PrependKey(prefix: seq<int>, pairs: seq<Pair>, key: seq<int>)
    ensures HasKey(Prepend(prefix, pairs), prefix + key) <==> HasKey(pairs, key)
    ensures HasLonger(Prepend(prefix, pairs), prefix + key) <==> HasLonger(pairs, key)
  {
    var all := Prepend(prefix, pairs);
    forall i | 0 <= i < |pairs|
      ensures all[i] in all && pairs[i] in pairs
      ensures all[i].key == prefix + key <==> pairs[i].key == key
      ensures prefix + key < all[i].key <==> key < pairs[i].key
    {
      assert all[i].key[|prefix|..] == pairs[i].key && (prefix + key)[|prefix|..] == key;
      if prefix + key <= all[i].key {
        assert all[i].key[..|prefix + key|] == prefix + key;
        assert pairs[i].key[..|key|] == all[i].key[..|prefix + key|][|prefix|..] == key;
      }
      if key <= pairs[i].key {
        assert pairs[i].key == key + pairs[i].key[|key|..];
        assert all[i].key == prefix + key + pairs[i].key[|key|..];
      }
    }
  }

  /** No string of one starts with the same byte as a string of the other. */
  ghost predicate Apart(a: seq<Pair>, b: seq<Pair>) {
    && (forall p :: p in a + b ==> p.key != [])
    && forall p, q :: p in a && q in b ==> p.key[0] != q.key[0]
  }

  lemma LimitedAppend(a: seq<Pair>, b: seq<Pair>, room: int, p: Pair)
    requires room > 0 && Apart(a, b)
    ensures Limited(a + b, room, p) <==> Limited(a, room, p) || Limited(b, room, p)
  {
    assert forall q :: q in a + b <==> q in a || q in b;
    if |p.key| == room {
      forall q, r | q in a && r in b
        ensures !(p.key <= q.key && p.key <= r.key)
      {
        assert p.key <= q.key ==> p.key[0] == q.key[0];
        assert p.key <= r.key ==> p.key[0] == r.key[0];
      }
      assert HasKey(a, p.key) ==> exists q :: q in a && p.key <= q.key;
      assert HasKey(b, p.key) ==> exists q :: q in b && p.key <= q.key;
    }
  }

  /** What a limited iteration delivers for a node. */
  lemma {:induction false} CutMember(n: Node, room: int, p: Pair)
    requires WellFormed(n) && room >= 0
    ensures p in I.CutPairs(n, room) <==> Limited(Pairs(n), room, p)
    decreases n, 1
  {
    PairsNonEmpty(n);
    if room == 0 {
      NoRoom(n, p);
    } else {
      match n
      case Final(_) =>
      case Intermediate(value, next) =>
        CutMember(next, room, p);
        FirstValue(value, Pairs(next), room, p);
      case Linear(bytes, next) =>
        if room < |bytes| {
          PairsNonEmpty(next);
          CutInside(bytes, Pairs(next), room, p);
        } else {
          LimitedPrepend(bytes, Pairs(next), room, p);
          PrependMember(bytes, I.CutPairs(next, room - |bytes|), p);
          if bytes <= p.key {
            CutMember(next, room - |bytes|, Pair(p.key[|bytes|..], p.value));
          }
        }
      case Branch(kids) =>
        CutKidMember(kids, room, p);
    }
  }

  lemma NoRoom(n: Node, p: Pair)
    requires WellFormed(n)
    ensures p in I.CutPairs(n, 0) <==> Limited(Pairs(n), 0, p)
  {
    PairsNonEmpty(n);
    var pairs := Pairs(n);
    if n.IsValue() {
      assert pairs[0] == Pair([], n.value);
      PairsSorted(n);
      if p in pairs && p.key == [] {
        var i :| 0 <= i < |pairs| && pairs[i] == p;
        assert i == 0;
      }
    } else {
      NoEmptyKey(n);
      assert pairs[0] in pairs && [] < pairs[0].key;
    }
  }

  lemma FirstValue(value: int, pairs: seq<Pair>, room: int, p: Pair)
    requires room > 0
    ensures Limited([Pair([], value)] + pairs, room, p) <==> p == Pair([], value) || Limited(pairs, room, p)
  {
    var all := [Pair([], value)] + pairs;
    assert forall q :: q in all <==> q == Pair([], value) || q in pairs;
    if |p.key| == room {
      assert HasKey(all, p.key) <==> HasKey(pairs, p.key);
      assert HasLonger(all, p.key) <==> HasLonger(pairs, p.key);
    }
  }

  lemma CutInside(bytes: seq<int>, pairs: seq<Pair>, room: int, p: Pair)
    requires 0 < room < |bytes| && pairs != []
    ensures Limited(Prepend(bytes, pairs), room, p) <==> p == Pair(bytes[..room], -1)
  {
    var all := Prepend(bytes, pairs);
    forall i | 0 <= i < |all|
      ensures all[i].key[..room] == bytes[..room] && |all[i].key| > room
    {
    }
    assert all[0] in all;
    if p == Pair(bytes[..room], -1) {
      assert p.key < all[0].key;
    }
    if |p.key| == room && HasLonger(all, p.key) {
      var q :| q in all && p.key < q.key;
      assert q.key[..room] == p.key;
    }
  }

  lemma {:induction false} CutKidMember(kids: seq<Kid>, room: int, p: Pair)
    requires AllWellFormed(kids) && Increasing(kids) && room > 0
    ensures p in I.CutKidPairs(kids, room) <==> Limited(KidPairs(kids), room, p)
    decreases kids, 0
  {
    if kids != [] {
      assert KidWellFormed(kids[0]);
      CutOneMember(kids[0], room, p);
      CutKidMember(kids[1..], room, p);
      KidsApart(kids);
      LimitedAppend(OneKidPairs(kids[0]), KidPairs(kids[1..]), room, p);
    }
  }

  lemma KidsApart(kids: seq<Kid>)
    requires AllWellFormed(kids) && Increasing(kids) && kids != []
    ensures Apart(OneKidPairs(kids[0]), KidPairs(kids[1..]))
  {
    KidPairsSorted(kids[1..]);
    KidPairsSorted(kids);
    assert forall p :: p in OneKidPairs(kids[0]) ==> p.key != [] && p.key[0] == kids[0].key;
  }

  lemma {:induction false} CutOneMember(kid: Kid, room: int, p: Pair)
    requires KidWellFormed(kid) && room > 0
    ensures p in I.CutOneKid(kid, room) <==> Limited(OneKidPairs(kid), room, p)
    decreases kid, 2
  {
    LimitedPrepend([kid.key], Pairs(kid.node), room, p);
    PrependMember([kid.key], I.CutPairs(kid.node, room - 1), p);
    if [kid.key] <= p.key {
      CutMember(kid.node, room - 1, Pair(p.key[1..], p.value));
    }
  }

  /** What is delivered is in order, without repetition. */
  lemma {:induction false} CutSorted(n: Node, room: int)
    requires WellFormed(n)
    ensures Sorted(I.CutPairs(n, room))
    ensures room != 0 && !n.IsValue() ==> forall p :: p in I.CutPairs(n, room) ==> p.key != []
    decreases n, 1
  {
    if room != 0 {
      match n
      case Final(_) =>
      case Intermediate(_, next) => CutSorted(next, room);
      case Linear(bytes, next) =>
        CutSorted(next, I.RoomLeft(room, |bytes|));
        SortedPrepend(bytes, I.CutPairs(next, I.RoomLeft(room, |bytes|)));
      case Branch(kids) => CutKidSorted(kids, room);
    }
  }

  lemma {:induction false} CutKidSorted(kids: seq<Kid>, room: int)
    requires AllWellFormed(kids) && Increasing(kids) && room != 0
    ensures Sorted(I.CutKidPairs(kids, room))
    ensures forall p :: p in I.CutKidPairs(kids, room) ==> p.key != [] && kids != [] && kids[0].key <= p.key[0]
    decreases kids, 0
  {
    if kids != [] {
      assert KidWellFormed(kids[0]);
      CutOneSorted(kids[0], room);
      CutKidSorted(kids[1..], room);
      var p, q := I.CutOneKid(kids[0], room), I.CutKidPairs(kids[1..], room);
      forall i, j | 0 <= i < |p| && 0 <= j < |q|
        ensures Less(p[i].key, q[j].key)
      {
        assert p[i].key[0] == kids[0].key;
        assert q[j] in q;
      }
    }
  }

  lemma {:induction false} CutOneSorted(kid: Kid, room: int)
    requires KidWellFormed(kid)
    ensures Sorted(I.CutOneKid(kid, room))
    decreases kid, 2
  {
    CutSorted(kid.node, I.RoomLeft(room, 1));
    SortedPrepend([kid.key], I.CutPairs(kid.node, I.RoomLeft(room, 1)));
  }
}
