/**
 Abstract byte tries: the tree which a serialized trie stands for, and the sorted
 list of (byte string, value) pairs which the tree stands for.
 */
module Trie {

  datatype Pair = Pair(key: seq<int>, value: int)

  datatype Kid = Kid(key: int, node: Node)

  datatype Node =
    | Final(value: int)
    | Intermediate(value: int, next: Node)
    | Linear(bytes: seq<int>, next: Node)
    | Branch(kids: seq<Kid>)
  {
    predicate IsValue() {
      Final? || Intermediate?
    }
  }

  ghost predicate Increasing(kids: seq<Kid>) {
    forall i, j :: 0 <= i < j < |kids| ==> kids[i].key < kids[j].key
  }

  /** The shapes which the node lead bytes can express. */
  ghost predicate WellFormed(n: Node)
    decreases n, 1
  {
    match n
    case Final(_) => true
    case Intermediate(_, next) => !next.IsValue() && WellFormed(next)
    case Linear(bytes, next) => bytes != [] && WellFormed(next)
    case Branch(kids) => 2 <= |kids| <= 0x100 && Increasing(kids) && AllWellFormed(kids)
  }

  ghost predicate AllWellFormed(kids: seq<Kid>)
    decreases kids, 0
  {
    forall i :: 0 <= i < |kids| ==> KidWellFormed(kids[i])
  }

  ghost predicate KidWellFormed(kid: Kid)
    decreases kid, 2
  {
    WellFormed(kid.node)
  }

  /** Puts the same bytes in front of every key. */
  function Prepend(prefix: seq<int>, pairs: seq<Pair>): (r: seq<Pair>)
    ensures |r| == |pairs|
    ensures forall i :: 0 <= i < |r| ==> r[i] == Pair(prefix + pairs[i].key, pairs[i].value)
  {
    seq(|pairs|, i requires 0 <= i < |pairs| => Pair(prefix + pairs[i].key, pairs[i].value))
  }

  /** The pairs of a trie, depth first. */
  function Pairs(n: Node): seq<Pair>
    decreases n, 1
  {
    match n
    case Final(value) => [Pair([], value)]
    case Intermediate(value, next) => [Pair([], value)] + Pairs(next)
    case Linear(bytes, next) => Prepend(bytes, Pairs(next))
    case Branch(kids) => KidPairs(kids)
  }

  function KidPairs(kids: seq<Kid>): seq<Pair>
    decreases kids, 0
  {
    if kids == [] then [] else OneKidPairs(kids[0]) + KidPairs(kids[1..])
  }

  function OneKidPairs(kid: Kid): seq<Pair>
    decreases kid, 2
  {
    Prepend([kid.key], Pairs(kid.node))
  }

  /** The pairs whose keys start with b, with that byte taken off. */
  function Derive(pairs: seq<Pair>, b: int): seq<Pair> {
    if pairs == [] then []
    else if pairs[0].key != [] && pairs[0].key[0] == b then
      [Pair(pairs[0].key[1..], pairs[0].value)] + Derive(pairs[1..], b)
    else Derive(pairs[1..], b)
  }

  lemma {:induction false} DeriveAppend(p: seq<Pair>, q: seq<Pair>, b: int)
    ensures Derive(p + q, b) == Derive(p, b) + Derive(q, b)
  {
    if p == [] {
      assert p + q == q;
    } else {
      assert (p + q)[1..] == p[1..] + q;
      DeriveAppend(p[1..], q, b);
    }
  }

  lemma {:induction false} DerivePrepend(prefix: seq<int>, pairs: seq<Pair>, b: int)
    requires prefix != []
    ensures Derive(Prepend(prefix, pairs), b) == if prefix[0] == b then Prepend(prefix[1..], pairs) else []
  {
    var r := Prepend(prefix, pairs);
    if pairs == [] {
      assert r == [];
    } else {
      assert r[1..] == Prepend(prefix, pairs[1..]);
      DerivePrepend(prefix, pairs[1..], b);
      assert r[0].key[0] == prefix[0];
      assert r[0].key[1..] == prefix[1..] + pairs[0].key;
      if prefix[0] == b {
        assert Prepend(prefix[1..], pairs) ==
          [Pair(prefix[1..] + pairs[0].key, pairs[0].value)] + Prepend(prefix[1..], pairs[1..]);
      }
    }
  }

  lemma PrependNothing(pairs: seq<Pair>)
    ensures Prepend([], pairs) == pairs
  {
    forall i | 0 <= i < |pairs|
      ensures Prepend([], pairs)[i] == pairs[i]
    {
      assert [] + pairs[i].key == pairs[i].key;
    }
  }

  /** No kid has this key. */
  ghost predicate NoKid(kids: seq<Kid>, b: int) {
    forall i :: 0 <= i < |kids| ==> kids[i].key != b
  }

  lemma {:induction false} DeriveNoKid(kids: seq<Kid>, b: int)
    requires NoKid(kids, b)
    ensures Derive(KidPairs(kids), b) == []
  {
    if kids != [] {
      DeriveNoKid(kids[1..], b);
      DerivePrepend([kids[0].key], Pairs(kids[0].node), b);
      DeriveAppend(OneKidPairs(kids[0]), KidPairs(kids[1..]), b);
    }
  }

  /** Taking off the byte of one kid leaves the pairs of that kid. */
  lemma {:induction false} DeriveKid(kids: seq<Kid>, i: nat)
    requires Increasing(kids) && i < |kids|
    ensures Derive(KidPairs(kids), kids[i].key) == Pairs(kids[i].node)
  {
    var b := kids[i].key;
    var first := OneKidPairs(kids[0]);
    DeriveAppend(first, KidPairs(kids[1..]), b);
    DerivePrepend([kids[0].key], Pairs(kids[0].node), b);
    if i == 0 {
      DeriveNoKid(kids[1..], b);
      PrependNothing(Pairs(kids[0].node));
      assert [kids[0].key][1..] == [];
    } else {
      DeriveKid(kids[1..], i - 1);
    }
  }

  lemma {:induction false} PairsNonEmpty(n: Node)
    requires WellFormed(n)
    ensures Pairs(n) != []
    decreases n
  {
    match n
    case Final(_) =>
    case Intermediate(_, next) =>
    case Linear(_, next) => PairsNonEmpty(next);
    case Branch(kids) =>
      assert KidWellFormed(kids[0]);
      PairsNonEmpty(kids[0].node);
      assert OneKidPairs(kids[0]) != [];
  }

  lemma {:induction false} KidKeysNonEmpty(kids: seq<Kid>)
    ensures forall p :: p in KidPairs(kids) ==> p.key != []
  {
    if kids != [] {
      KidKeysNonEmpty(kids[1..]);
      assert forall p :: p in OneKidPairs(kids[0]) ==> p.key != [];
    }
  }

  /** Only a value node has a value for the empty string. */
  lemma NoEmptyKey(n: Node)
    requires WellFormed(n) && !n.IsValue()
    ensures forall p :: p in Pairs(n) ==> p.key != []
  {
    match n
    case Linear(_, _) =>
    case Branch(kids) => KidKeysNonEmpty(kids);
  }

  /** What the pairs still spell after the bytes s. */
  function Residual(pairs: seq<Pair>, s: seq<int>): seq<Pair>
    decreases s
  {
    if s == [] then pairs else Residual(Derive(pairs, s[0]), s[1..])
  }

  lemma {:induction false} ResidualAppend(pairs: seq<Pair>, s: seq<int>, t: seq<int>)
    ensures Residual(pairs, s + t) == Residual(Residual(pairs, s), t)
    decreases s
  {
    if s == [] {
      assert s + t == t;
    } else {
      assert (s + t)[1..] == s[1..] + t;
      ResidualAppend(Derive(pairs, s[0]), s[1..], t);
    }
  }

  lemma {:induction false} DeriveMember(pairs: seq<Pair>, b: int, p: Pair)
    ensures p in Derive(pairs, b) <==> Pair([b] + p.key, p.value) in pairs
  {
    if pairs != [] {
      DeriveMember(pairs[1..], b, p);
      var q := pairs[0];
      assert q.key != [] ==> q.key == [q.key[0]] + q.key[1..];
      assert Pair([b] + p.key, p.value) == q <==> q.key != [] && q.key[0] == b && Pair(q.key[1..], q.value) == p;
    }
  }

  /** The residual pairs are exactly those whose keys start with s. */
  lemma {:induction false} ResidualMember(pairs: seq<Pair>, s: seq<int>, p: Pair)
    ensures p in Residual(pairs, s) <==> Pair(s + p.key, p.value) in pairs
    decreases s
  {
    if s == [] {
      assert [] + p.key == p.key;
    } else {
      ResidualMember(Derive(pairs, s[0]), s[1..], p);
      DeriveMember(pairs, s[0], Pair(s[1..] + p.key, p.value));
      assert [s[0]] + (s[1..] + p.key) == s + p.key;
    }
  }

  /** Results of matching a byte string. */
  datatype Result = NoMatch | NoValue | FinalValue | IntermediateValue

  /** What a map with these keys says about the string s. */
  ghost function Status(pairs: seq<Pair>, s: seq<int>): Result {
    if !HasPrefix(pairs, s) then NoMatch
    else if !HasKey(pairs, s) then NoValue
    else if HasLonger(pairs, s) then IntermediateValue
    else FinalValue
  }

  /** What a position in the tree says. */
  function NodeStatus(n: Node): Result {
    match n
    case Final(_) => FinalValue
    case Intermediate(_, _) => IntermediateValue
    case _ => NoValue
  }

  lemma StatusOfNode(n: Node)
    requires WellFormed(n)
    ensures Status(Pairs(n), []) == NodeStatus(n)
  {
    PairsNonEmpty(n);
    assert [] <= Pairs(n)[0].key;
    match n
    case Final(_) =>
    case Intermediate(value, next) =>
      assert Pairs(n)[0] == Pair([], value);
      PairsNonEmpty(next);
      NoEmptyKey(next);
      assert Pairs(n)[1] == Pairs(next)[0];
    case _ =>
      NoEmptyKey(n);
  }

  ghost predicate HasPrefix(pairs: seq<Pair>, s: seq<int>) {
    exists p :: p in pairs && s <= p.key
  }

  ghost predicate HasKey(pairs: seq<Pair>, s: seq<int>) {
    exists p :: p in pairs && p.key == s
  }

  ghost predicate HasLonger(pairs: seq<Pair>, s: seq<int>) {
    exists p :: p in pairs && s < p.key
  }

  lemma ToResidual(pairs: seq<Pair>, s: seq<int>, p: Pair)
    requires p in pairs && s <= p.key
    ensures Pair(p.key[|s|..], p.value) in Residual(pairs, s)
  {
    assert s + p.key[|s|..] == p.key;
    ResidualMember(pairs, s, Pair(p.key[|s|..], p.value));
  }

  lemma FromResidual(pairs: seq<Pair>, s: seq<int>, p: Pair)
    requires p in Residual(pairs, s)
    ensures Pair(s + p.key, p.value) in pairs
  {
    ResidualMember(pairs, s, p);
  }

  /** The status of s is that of the empty string for the residual pairs. */
  lemma StatusOfResidual(pairs: seq<Pair>, s: seq<int>)
    ensures Status(pairs, s) == Status(Residual(pairs, s), [])
  {
    var r := Residual(pairs, s);
    if HasPrefix(pairs, s) {
      var p :| p in pairs && s <= p.key;
      ToResidual(pairs, s, p);
    }
    if HasKey(pairs, s) {
      var p :| p in pairs && p.key == s;
      ToResidual(pairs, s, p);
      assert p.key[|s|..] == [];
    }
    if HasLonger(pairs, s) {
      var p :| p in pairs && s < p.key;
      ToResidual(pairs, s, p);
    }
    if HasPrefix(r, []) {
      var p :| p in r && [] <= p.key;
      FromResidual(pairs, s, p);
      assert HasPrefix(pairs, s);
    }
    if HasKey(r, []) {
      var p :| p in r && p.key == [];
      FromResidual(pairs, s, p);
      assert s + p.key == s;
      assert HasKey(pairs, s);
    }
    if HasLonger(r, []) {
      var p :| p in r && [] < p.key;
      FromResidual(pairs, s, p);
      assert HasLonger(pairs, s);
    }
  }

  /** Unsigned byte order, each string after its prefixes. */
  predicate Less(a: seq<int>, b: seq<int>) {
    b != [] && (a == [] || a[0] < b[0] || (a[0] == b[0] && Less(a[1..], b[1..])))
  }

  ghost predicate Sorted(pairs: seq<Pair>) {
    forall i, j :: 0 <= i < j < |pairs| ==> Less(pairs[i].key, pairs[j].key)
  }

  lemma {:induction false} LessIrreflexive(a: seq<int>)
    ensures !Less(a, a)
  {
    if a != [] {
      LessIrreflexive(a[1..]);
    }
  }

  lemma {:induction false} LessPrepend(prefix: seq<int>, a: seq<int>, b: seq<int>)
    requires Less(a, b)
    ensures Less(prefix + a, prefix + b)
  {
    if prefix == [] {
      assert prefix + a == a && prefix + b == b;
    } else {
      LessPrepend(prefix[1..], a, b);
      assert (prefix + a)[1..] == prefix[1..] + a && (prefix + b)[1..] == prefix[1..] + b;
    }
  }

  lemma SortedPrepend(prefix: seq<int>, pairs: seq<Pair>)
    requires Sorted(pairs)
    ensures Sorted(Prepend(prefix, pairs))
  {
    forall i, j | 0 <= i < j < |pairs|
      ensures Less(prefix + pairs[i].key, prefix + pairs[j].key)
    {
      LessPrepend(prefix, pairs[i].key, pairs[j].key);
    }
  }

  lemma {:induction false} PairsSorted(n: Node)
    requires WellFormed(n)
    ensures Sorted(Pairs(n))
    decreases n, 1
  {
    match n
    case Final(_) =>
    case Intermediate(_, next) =>
      PairsSorted(next);
      NoEmptyKey(next);
    case Linear(bytes, next) =>
      PairsSorted(next);
      SortedPrepend(bytes, Pairs(next));
    case Branch(kids) =>
      KidPairsSorted(kids);
  }

  lemma {:induction false} KidPairsSorted(kids: seq<Kid>)
    requires AllWellFormed(kids) && Increasing(kids)
    ensures Sorted(KidPairs(kids))
    ensures forall p :: p in KidPairs(kids) ==> p.key != [] && kids != [] && kids[0].key <= p.key[0]
    decreases kids, 0
  {
    if kids != [] {
      assert KidWellFormed(kids[0]);
      OneKidPairsSorted(kids[0]);
      KidPairsSorted(kids[1..]);
      var p, q := OneKidPairs(kids[0]), KidPairs(kids[1..]);
      forall i, j | 0 <= i < |p| && 0 <= j < |q|
        ensures Less(p[i].key, q[j].key)
      {
        assert p[i].key[0] == kids[0].key;
        assert q[j] in q;
      }
    }
  }

  lemma {:induction false} OneKidPairsSorted(kid: Kid)
    requires KidWellFormed(kid)
    ensures Sorted(OneKidPairs(kid))
    decreases kid, 2
  {
    PairsSorted(kid.node);
    SortedPrepend([kid.key], Pairs(kid.node));
  }

  lemma {:induction false} ResidualOfNothing(s: seq<int>)
    ensures Residual([], s) == []
    decreases s
  {
    if s != [] {
      ResidualOfNothing(s[1..]);
    }
  }
}
