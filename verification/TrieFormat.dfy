/** When the bytes at a position are the serialized form of a trie. */
module TrieFormat {
  import opened Basics
  import opened Trie
  import opened TrieCodec

  /** The node n is serialized at pos. */
  ghost predicate NodeAt(b: seq<Byte>, pos: nat, n: Node)
    decreases n, 1
  {
    match n
    case Final(value) =>
      ValueFits(b, pos) && IsFinalAt(b, pos) && ValueAt(b, pos) == value
    case Intermediate(value, next) =>
      && ValueFits(b, pos) && !IsFinalAt(b, pos) && ValueAt(b, pos) == value
      && !next.IsValue() && NodeAt(b, SkipValue(b, pos), next)
    case Linear(bytes, next) =>
      && 0 < |bytes| <= kMaxLinearMatchLength && pos + |bytes| < |b|
      && b[pos] == kMinLinearMatch + |bytes| - 1
      && b[pos + 1..pos + 1 + |bytes|] == bytes
      && NodeAt(b, pos + 1 + |bytes|, next)
    case Branch(kids) =>
      && 2 <= |kids| <= 0x100 && Increasing(kids)
      && BranchHeadAt(b, pos, |kids|)
      && BranchAt(b, AfterBranchHead(b, pos), kids)
  }

  /** A branch node byte, followed by a length byte if it is 0. */
  predicate BranchHeadAt(b: seq<Byte>, pos: nat, length: nat) {
    && pos < |b| && b[pos] < kMinLinearMatch
    && if b[pos] == 0 then pos + 1 < |b| && b[pos + 1] == length - 1 else b[pos] == length - 1
  }

  function AfterBranchHead(b: seq<Byte>, pos: nat): nat
    requires pos < |b|
  {
    if b[pos] == 0 then pos + 2 else pos + 1
  }

  /** A branch sub-node: an encoded binary search which ends in short lists. */
  ghost predicate BranchAt(b: seq<Byte>, pos: nat, kids: seq<Kid>)
    decreases kids, 0
  {
    if kids == [] then
      false
    else if |kids| > kMaxBranchLinearSubNodeLength then
      var half := |kids| / 2;
      && pos < |b| && kids[half - 1].key < b[pos] <= kids[half].key
      && DeltaFits(b, pos + 1) && JumpByDelta(b, pos + 1) >= 0
      && BranchAt(b, JumpByDelta(b, pos + 1), kids[..half])
      && BranchAt(b, SkipDelta(b, pos + 1), kids[half..])
    else if |kids| == 1 then
      && pos < |b| && b[pos] == kids[0].key
      && KidAt(b, pos + 1, kids[0])
    else
      && pos < |b| && b[pos] == kids[0].key
      && ValueFits(b, pos + 1)
      && ListedKidAt(b, pos + 1, kids[0])
      && BranchAt(b, SkipValue(b, pos + 1), kids[1..])
  }

  ghost predicate KidAt(b: seq<Byte>, pos: nat, kid: Kid)
    decreases kid, 2
  {
    NodeAt(b, pos, kid.node)
  }

  /** A listed kid is a final value, or the delta of a jump to its node. */
  ghost predicate ListedKidAt(b: seq<Byte>, pos: nat, kid: Kid)
    requires ValueFits(b, pos)
    decreases kid, 2
  {
    if IsFinalAt(b, pos) then
      kid.node == Final(ValueAt(b, pos))
    else
      SkipValue(b, pos) + ValueAt(b, pos) >= 0 && NodeAt(b, SkipValue(b, pos) + ValueAt(b, pos), kid.node)
  }

  lemma {:induction false} NodeAtWellFormed(b: seq<Byte>, pos: nat, n: Node)
    requires NodeAt(b, pos, n)
    ensures WellFormed(n)
    decreases n, 1
  {
    match n
    case Final(_) =>
    case Intermediate(_, next) => NodeAtWellFormed(b, SkipValue(b, pos), next);
    case Linear(bytes, next) => NodeAtWellFormed(b, pos + 1 + |bytes|, next);
    case Branch(kids) => BranchAtWellFormed(b, AfterBranchHead(b, pos), kids);
  }

  lemma {:induction false} BranchAtWellFormed(b: seq<Byte>, pos: nat, kids: seq<Kid>)
    requires BranchAt(b, pos, kids)
    ensures AllWellFormed(kids)
    decreases kids, 0
  {
    if |kids| > kMaxBranchLinearSubNodeLength {
      var half := |kids| / 2;
      BranchAtWellFormed(b, JumpByDelta(b, pos + 1), kids[..half]);
      BranchAtWellFormed(b, SkipDelta(b, pos + 1), kids[half..]);
      assert forall i :: 0 <= i < |kids| ==> kids[i] == if i < half then kids[..half][i] else kids[half..][i - half];
    } else {
      KidAtWellFormed(b, pos + 1, kids[0], |kids| > 1);
      if |kids| > 1 {
        BranchAtWellFormed(b, SkipValue(b, pos + 1), kids[1..]);
        assert forall i :: 0 < i < |kids| ==> kids[i] == kids[1..][i - 1];
      }
    }
  }

  lemma {:induction false} KidAtWellFormed(b: seq<Byte>, pos: nat, kid: Kid, listed: bool)
    requires if listed then ValueFits(b, pos) && ListedKidAt(b, pos, kid) else KidAt(b, pos, kid)
    ensures KidWellFormed(kid)
    decreases kid, 2
  {
    if !listed {
      NodeAtWellFormed(b, pos, kid.node);
    } else if !IsFinalAt(b, pos) {
      NodeAtWellFormed(b, SkipValue(b, pos) + ValueAt(b, pos), kid.node);
    }
  }

  /** More bytes in front only move values and deltas. */
  lemma ValueMoved(prefix: seq<Byte>, b: seq<Byte>, pos: nat)
    requires ValueFits(b, pos)
    ensures var c, q := prefix + b, |prefix| + pos;
      && ValueFits(c, q) && ValueAt(c, q) == ValueAt(b, pos)
      && IsFinalAt(c, q) == IsFinalAt(b, pos) && SkipValue(c, q) == |prefix| + SkipValue(b, pos)
  {
    var n := ValueTail(b[pos] / 2);
    BigEndianMoved(prefix + b, |prefix| + pos + 1, b[pos + 1..pos + 1 + n], n);
    BigEndianMoved(b, pos + 1, b[pos + 1..pos + 1 + n], n);
  }

  lemma DeltaMoved(prefix: seq<Byte>, b: seq<Byte>, pos: nat)
    requires DeltaFits(b, pos)
    ensures var c, q := prefix + b, |prefix| + pos;
      && DeltaFits(c, q) && DeltaAt(c, q) == DeltaAt(b, pos)
      && SkipDelta(c, q) == |prefix| + SkipDelta(b, pos)
  {
    var n := DeltaTail(b[pos]);
    BigEndianMoved(prefix + b, |prefix| + pos + 1, b[pos + 1..pos + 1 + n], n);
    BigEndianMoved(b, pos + 1, b[pos + 1..pos + 1 + n], n);
  }

  /** More bytes in front only move a serialized node. */
  lemma {:induction false} NodeMoved(prefix: seq<Byte>, b: seq<Byte>, pos: nat, n: Node)
    requires NodeAt(b, pos, n)
    ensures NodeAt(prefix + b, |prefix| + pos, n)
    decreases n, 1
  {
    hide BranchAt, ValueFits, ValueAt, IsFinalAt, SkipValue;
    match n
    case Final(_) =>
      ValueMoved(prefix, b, pos);
    case Intermediate(_, next) =>
      ValueMoved(prefix, b, pos);
      NodeMoved(prefix, b, SkipValue(b, pos), next);
    case Linear(bytes, next) =>
      NodeMoved(prefix, b, pos + 1 + |bytes|, next);
      assert (prefix + b)[|prefix| + pos + 1..|prefix| + pos + 1 + |bytes|] == b[pos + 1..pos + 1 + |bytes|];
    case Branch(kids) =>
      BranchMoved(prefix, b, AfterBranchHead(b, pos), kids);
  }

  lemma {:induction false} BranchMoved(prefix: seq<Byte>, b: seq<Byte>, pos: nat, kids: seq<Kid>)
    requires BranchAt(b, pos, kids)
    ensures BranchAt(prefix + b, |prefix| + pos, kids)
    decreases kids, 0
  {
    hide KidAt, ListedKidAt, ValueFits, ValueAt, IsFinalAt, SkipValue, DeltaFits, DeltaAt, SkipDelta;
    if |kids| > kMaxBranchLinearSubNodeLength {
      var half := |kids| / 2;
      DeltaMoved(prefix, b, pos + 1);
      BranchMoved(prefix, b, JumpByDelta(b, pos + 1), kids[..half]);
      BranchMoved(prefix, b, SkipDelta(b, pos + 1), kids[half..]);
    } else if |kids| == 1 {
      KidMoved(prefix, b, pos + 1, kids[0], false);
    } else {
      KidMoved(prefix, b, pos + 1, kids[0], true);
      BranchMoved(prefix, b, SkipValue(b, pos + 1), kids[1..]);
    }
  }

  lemma {:induction false} KidMoved(prefix: seq<Byte>, b: seq<Byte>, pos: nat, kid: Kid, listed: bool)
    requires if listed then ValueFits(b, pos) && ListedKidAt(b, pos, kid) else KidAt(b, pos, kid)
    ensures var c, q := prefix + b, |prefix| + pos;
      if listed then
        ValueFits(c, q) && SkipValue(c, q) == |prefix| + SkipValue(b, pos) && ListedKidAt(c, q, kid)
      else
        KidAt(c, q, kid)
    decreases kid, 2
  {
    if !listed {
      NodeMoved(prefix, b, pos, kid.node);
    } else {
      ValueMoved(prefix, b, pos);
      if !IsFinalAt(b, pos) {
        NodeMoved(prefix, b, SkipValue(b, pos) + ValueAt(b, pos), kid.node);
      }
    }
  }

  datatype Option<T> = None | Some(value: T)

  /** The node which is left after matching one byte. */
  ghost function Step(n: Node, c: int): Option<Node>
    requires WellFormed(n)
  {
    match n
    case Final(_) => None
    case Intermediate(_, next) => Step(next, c)
    case Linear(bytes, next) =>
      if bytes[0] != c then None
      else if |bytes| == 1 then Some(next)
      else Some(Linear(bytes[1..], next))
    case Branch(kids) => StepKids(kids, c)
  }

  function StepKids(kids: seq<Kid>, c: int): Option<Node> {
    if kids == [] then None
    else if kids[0].key == c then Some(kids[0].node)
    else StepKids(kids[1..], c)
  }

  lemma {:induction false} StepKidsAt(kids: seq<Kid>, c: int)
    requires Increasing(kids)
    ensures NoKid(kids, c) ==> StepKids(kids, c) == None
    ensures forall i :: 0 <= i < |kids| && kids[i].key == c ==> StepKids(kids, c) == Some(kids[i].node)
  {
    if kids != [] {
      StepKidsAt(kids[1..], c);
      assert forall i :: 0 < i < |kids| ==> kids[i] == kids[1..][i - 1];
    }
  }

  /** Comparing with the middle byte tells which half to search. */
  lemma StepHalf(kids: seq<Kid>, half: nat, middle: int, c: int)
    requires Increasing(kids) && 0 < half < |kids|
    requires kids[half - 1].key < middle <= kids[half].key
    ensures StepKids(kids, c) == if c < middle then StepKids(kids[..half], c) else StepKids(kids[half..], c)
  {
    StepKidsAt(kids, c);
    StepKidsAt(kids[..half], c);
    StepKidsAt(kids[half..], c);
    if i :| 0 <= i < |kids| && kids[i].key == c {
      assert kids[i] == if i < half then kids[..half][i] else kids[half..][i - half];
    } else {
      assert NoKid(kids, c) && NoKid(kids[..half], c) && NoKid(kids[half..], c);
    }
  }

  /** Stepping a tree takes the byte off the keys of its pairs. */
  lemma {:induction false} StepPairs(n: Node, c: int)
    requires WellFormed(n)
    ensures match Step(n, c)
            case None => Derive(Pairs(n), c) == []
            case Some(m) => WellFormed(m) && Derive(Pairs(n), c) == Pairs(m)
  {
    match n
    case Final(value) =>
      assert Derive([Pair([], value)][1..], c) == [];
    case Intermediate(value, next) =>
      StepPairs(next, c);
      DeriveAppend([Pair([], value)], Pairs(next), c);
      assert Derive([Pair([], value)], c) == [];
    case Linear(bytes, next) =>
      DerivePrepend(bytes, Pairs(next), c);
      if |bytes| == 1 {
        PrependNothing(Pairs(next));
        assert bytes[1..] == [];
      }
    case Branch(kids) =>
      StepKidsAt(kids, c);
      if NoKid(kids, c) {
        DeriveNoKid(kids, c);
      } else {
        var i :| 0 <= i < |kids| && kids[i].key == c;
        assert KidWellFormed(kids[i]);
        DeriveKid(kids, i);
      }
  }
}
