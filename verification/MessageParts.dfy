/** The flat list of parts which a parsed message pattern consists of, and the tree behind it. */
module MessageParts {
  import opened Utf16

  datatype PartType =
    | MSG_START | MSG_LIMIT | SKIP_SYNTAX | INSERT_CHAR | REPLACE_NUMBER | ARG_START | ARG_LIMIT
    | ARG_NUMBER | ARG_NAME | ARG_TYPE | ARG_STYLE | ARG_SELECTOR | ARG_INT | ARG_DOUBLE

  const MAX_LENGTH := 0xffff
  const MAX_VALUE := 0x7fff

  datatype Part = Part(kind: PartType, index: nat, length: nat, value: int, limitPartIndex: nat)

  /** A part without a limit, or what is between a start part and its limit part. */
  datatype Item =
    | Leaf(kind: PartType, index: nat, length: nat, value: int)
    | Group(isMessage: bool, index: nat, length: nat, value: int, items: seq<Item>, limitIndex: nat, limitLength: nat)

  function StartType(isMessage: bool): PartType {
    if isMessage then MSG_START else ARG_START
  }

  function LimitType(isMessage: bool): PartType {
    if isMessage then MSG_LIMIT else ARG_LIMIT
  }

  /** The parts of some items, when there are base parts before them. */
  function Flatten(items: seq<Item>, base: nat): seq<Part>
    decreases items, 0
  {
    if items == [] then []
    else
      var first := FlattenItem(items[0], base);
      first + Flatten(items[1..], base + |first|)
  }

  function FlattenItem(item: Item, base: nat): (r: seq<Part>)
    ensures |r| > 0
    decreases item, 1
  {
    match item
    case Leaf(kind, index, length, value) => [Part(kind, index, length, value, 0)]
    case Group(isMessage, index, length, value, items, limitIndex, limitLength) =>
      var inner := Flatten(items, base + 1);
      [Part(StartType(isMessage), index, length, value, base + 1 + |inner|)] + inner
      + [Part(LimitType(isMessage), limitIndex, limitLength, value, 0)]
  }

  lemma {:induction false} FlattenAppend(a: seq<Item>, b: seq<Item>, base: nat)
    ensures Flatten(a + b, base) == Flatten(a, base) + Flatten(b, base + |Flatten(a, base)|)
  {
    if a == [] {
      assert a + b == b;
    } else {
      assert (a + b)[1..] == a[1..] + b;
      FlattenAppend(a[1..], b, base + |FlattenItem(a[0], base)|);
    }
  }

  lemma FlattenOne(item: Item, base: nat)
    ensures Flatten([item], base) == FlattenItem(item, base)
  {
    assert [item][1..] == [];
  }

  /** Leaves are not starts or limits. */
  ghost predicate LeavesOk(items: seq<Item>)
    decreases items, 0
  {
    forall i :: 0 <= i < |items| ==> LeafOk(items[i])
  }

  ghost predicate LeafOk(item: Item)
    decreases item, 1
  {
    match item
    case Leaf(kind, _, _, _) => kind !in {MSG_START, MSG_LIMIT, ARG_START, ARG_LIMIT}
    case Group(_, _, _, _, items, _, _) => LeavesOk(items)
  }

  predicate IsStart(p: Part) {
    p.kind == MSG_START || p.kind == ARG_START
  }

  predicate IsLimit(p: Part) {
    p.kind == MSG_LIMIT || p.kind == ARG_LIMIT
  }

  /** A start part number k, where the parts are numbered from base on, names its own later limit part. */
  ghost predicate Closes(parts: seq<Part>, base: nat, k: nat)
    requires k < |parts|
  {
    IsStart(parts[k]) ==>
      var l := parts[k].limitPartIndex - base;
      && k < l < |parts| && parts[l].value == parts[k].value
      && parts[l].kind == (if parts[k].kind == MSG_START then MSG_LIMIT else ARG_LIMIT)
  }

  /** Two start parts have different limit parts, and what starts inside another bracket ends inside it. */
  ghost predicate Nests(parts: seq<Part>, base: nat, k: nat, m: nat)
    requires k < m < |parts|
  {
    IsStart(parts[k]) && IsStart(parts[m]) ==>
      && parts[m].limitPartIndex != parts[k].limitPartIndex
      && (m < parts[k].limitPartIndex - base ==> parts[m].limitPartIndex < parts[k].limitPartIndex)
  }

  /** A limit part number l is named by a start part before it. */
  ghost predicate Opens(parts: seq<Part>, base: nat, l: nat)
    requires l < |parts|
  {
    IsLimit(parts[l]) ==> exists k: nat :: k < l && IsStart(parts[k]) && parts[k].limitPartIndex == base + l
  }

  /** The start and limit parts are properly nested pairs of brackets. */
  ghost predicate WellBracketed(parts: seq<Part>, base: nat) {
    && (forall k: nat :: k < |parts| ==> Closes(parts, base, k))
    && (forall k: nat, m: nat :: k < m < |parts| ==> Nests(parts, base, k, m))
    && forall l: nat :: l < |parts| ==> Opens(parts, base, l)
  }

  /** The parts b, numbered from base + offset on, are a part of the parts a. */
  ghost predicate PartOf(b: seq<Part>, offset: nat, a: seq<Part>) {
    offset + |b| <= |a| && forall k: nat :: k < |b| ==> a[offset + k] == b[k]
  }

  lemma ClosesMoved(b: seq<Part>, a: seq<Part>, base: nat, offset: nat, k: nat)
    requires k < |b| && PartOf(b, offset, a) && Closes(b, base + offset, k)
    ensures Closes(a, base, offset + k)
    ensures IsStart(b[k]) ==> base + offset + k < b[k].limitPartIndex < base + offset + |b|
  {
    if IsStart(b[k]) {
      var l: nat := b[k].limitPartIndex - base - offset;
      assert a[offset + l] == b[l];
    }
  }

  lemma NestsMoved(b: seq<Part>, a: seq<Part>, base: nat, offset: nat, k: nat, m: nat)
    requires k < m < |b| && PartOf(b, offset, a) && Nests(b, base + offset, k, m)
    ensures Nests(a, base, offset + k, offset + m)
  {
    assert a[offset + k] == b[k] && a[offset + m] == b[m];
  }

  lemma NestsOuter(r: seq<Part>, base: nat, k: nat, m: nat)
    requires k < m < |r| && (IsStart(r[k]) && IsStart(r[m]) ==> r[m].limitPartIndex < r[k].limitPartIndex)
    ensures Nests(r, base, k, m)
  {
  }

  lemma OpensMoved(b: seq<Part>, a: seq<Part>, base: nat, offset: nat, l: nat)
    requires l < |b| && PartOf(b, offset, a) && Opens(b, base + offset, l)
    ensures Opens(a, base, offset + l)
  {
    if IsLimit(b[l]) {
      var k: nat :| k < l && IsStart(b[k]) && b[k].limitPartIndex == base + offset + l;
      assert a[offset + k] == b[k];
    }
  }

  lemma {:induction false} FlattenBracketed(items: seq<Item>, base: nat)
    requires LeavesOk(items)
    ensures WellBracketed(Flatten(items, base), base)
    decreases items, 0
  {
    if items != [] {
      var first := FlattenItem(items[0], base);
      hide WellBracketed;
      assert LeafOk(items[0]);
      ItemBracketed(items[0], base);
      FlattenBracketed(items[1..], base + |first|);
      BracketedAppend(first, Flatten(items[1..], base + |first|), base);
    }
  }

  lemma {:induction false} ItemBracketed(item: Item, base: nat)
    requires LeafOk(item)
    ensures WellBracketed(FlattenItem(item, base), base)
    decreases item, 1
  {
    match item
    case Leaf(_, _, _, _) =>
    case Group(isMessage, index, length, value, items, limitIndex, limitLength) =>
      hide WellBracketed;
      FlattenBracketed(items, base + 1);
      var inner := Flatten(items, base + 1);
      BracketedGroup(inner, base, Part(StartType(isMessage), index, length, value, base + 1 + |inner|),
                     Part(LimitType(isMessage), limitIndex, limitLength, value, 0));
  }

  lemma BracketedAppend(a: seq<Part>, b: seq<Part>, base: nat)
    requires WellBracketed(a, base) && WellBracketed(b, base + |a|)
    ensures WellBracketed(a + b, base)
  {
    hide Closes, Opens, IsStart;
    var r := a + b;
    assert PartOf(a, 0, r) && PartOf(b, |a|, r);
    forall k: nat | k < |r|
      ensures Closes(r, base, k)
      ensures k < |a| && IsStart(r[k]) ==> r[k].limitPartIndex < base + |a|
      ensures k >= |a| && IsStart(r[k]) ==> r[k].limitPartIndex > base + |a|
    {
      if k < |a| {
        ClosesMoved(a, r, base, 0, k);
      } else {
        ClosesMoved(b, r, base, |a|, k - |a|);
      }
    }
    forall k: nat, m: nat | k < m < |r|
      ensures Nests(r, base, k, m)
    {
      if m < |a| {
        assert Nests(a, base, k, m);
      } else if k >= |a| {
        assert Nests(b, base + |a|, k - |a|, m - |a|);
      }
    }
    forall l: nat | l < |r|
      ensures Opens(r, base, l)
    {
      if l < |a| {
        OpensMoved(a, r, base, 0, l);
      } else {
        OpensMoved(b, r, base, |a|, l - |a|);
      }
    }
  }

  lemma BracketedGroup(inner: seq<Part>, base: nat, start: Part, limit: Part)
    requires WellBracketed(inner, base + 1) && start.limitPartIndex == base + 1 + |inner| && start.value == limit.value
    requires start.kind in {MSG_START, ARG_START}
    requires limit.kind == if start.kind == MSG_START then MSG_LIMIT else ARG_LIMIT
    ensures WellBracketed([start] + inner + [limit], base)
  {
    hide Closes, Opens, IsStart, IsLimit, PartOf, Nests;
    var r := [start] + inner + [limit];
    BracketedEnds(inner, base, start, limit, r);
    forall k: nat | k < |r|
      ensures Closes(r, base, k)
      ensures 0 < k && IsStart(r[k]) ==> r[k].limitPartIndex < start.limitPartIndex
    {
      if 0 < k < |r| - 1 {
        ClosesMoved(inner, r, base, 1, k - 1);
      }
    }
    forall k: nat, m: nat | k < m < |r|
      ensures Nests(r, base, k, m)
    {
      if 0 < k && m < |r| - 1 {
        NestsMoved(inner, r, base, 1, k - 1, m - 1);
      } else {
        NestsOuter(r, base, k, m);
      }
    }
    forall l: nat | l < |r|
      ensures Opens(r, base, l)
    {
      if 0 < l < |r| - 1 {
        OpensMoved(inner, r, base, 1, l - 1);
      }
    }
  }

  lemma BracketedEnds(inner: seq<Part>, base: nat, start: Part, limit: Part, r: seq<Part>)
    requires r == [start] + inner + [limit] && start.limitPartIndex == base + 1 + |inner| && start.value == limit.value
    requires start.kind in {MSG_START, ARG_START}
    requires limit.kind == if start.kind == MSG_START then MSG_LIMIT else ARG_LIMIT
    ensures Closes(r, base, 0) && Closes(r, base, |r| - 1) && Opens(r, base, 0) && Opens(r, base, |r| - 1)
    ensures IsStart(r[0]) && !IsStart(r[|r| - 1]) && PartOf(inner, 1, r)
  {
    assert IsStart(r[0]) && r[0].limitPartIndex == base + (|r| - 1);
  }

  /** The indexes of all parts are between from and to, and never decrease. */
  ghost predicate Ordered(parts: seq<Part>, from: nat, to: nat) {
    && (forall k :: 0 <= k < |parts| ==> from <= parts[k].index <= to)
    && forall k, m :: 0 <= k < m < |parts| ==> parts[k].index <= parts[m].index
  }

  lemma OrderedAppend(a: seq<Part>, b: seq<Part>, from: nat, middle: nat, to: nat)
    requires Ordered(a, from, middle) && Ordered(b, middle, to) && from <= middle <= to
    ensures Ordered(a + b, from, to)
  {
  }
}
