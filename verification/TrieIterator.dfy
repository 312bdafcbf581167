/** Iteration over all pairs of a serialized trie, with an explicit stack of branch states. */
module TrieIterator {
  import opened Basics
  import opened Trie
  import opened TrieCodec
  import opened TrieFormat

  /** What is left of a length limit; a negative room means no limit. */
  function RoomLeft(room: int, n: nat): int {
    if room < 0 then room else room - n
  }

  /** The pairs of a trie with strings cut off after room bytes; cut strings have the value -1. */
  function CutPairs(n: Node, room: int): seq<Pair>
    decreases n, 1
  {
    if room == 0 then
      [Pair([], if n.IsValue() then n.value else -1)]
    else
      match n
      case Final(value) => [Pair([], value)]
      case Intermediate(value, next) => [Pair([], value)] + CutPairs(next, room)
      case Linear(bytes, next) =>
        if 0 < room < |bytes| then [Pair(bytes[..room], -1)]
        else Prepend(bytes, CutPairs(next, RoomLeft(room, |bytes|)))
      case Branch(kids) => CutKidPairs(kids, room)
  }

  function CutKidPairs(kids: seq<Kid>, room: int): seq<Pair>
    decreases kids, 0
  {
    if kids == [] then [] else CutOneKid(kids[0], room) + CutKidPairs(kids[1..], room)
  }

  function CutOneKid(kid: Kid, room: int): seq<Pair>
    decreases kid, 2
  {
    Prepend([kid.key], CutPairs(kid.node, RoomLeft(room, 1)))
  }

  /** Without a limit nothing is cut. */
  lemma {:induction false} NoLimit(n: Node, room: int)
    requires room < 0
    ensures CutPairs(n, room) == Pairs(n)
    decreases n, 1
  {
    match n
    case Final(_) =>
    case Intermediate(_, next) => NoLimit(next, room);
    case Linear(_, next) => NoLimit(next, room);
    case Branch(kids) => NoLimitKids(kids, room);
  }

  lemma {:induction false} NoLimitKids(kids: seq<Kid>, room: int)
    requires room < 0
    ensures CutKidPairs(kids, room) == KidPairs(kids)
    decreases kids, 0
  {
    if kids != [] {
      NoLimitKid(kids[0], room);
      NoLimitKids(kids[1..], room);
    }
  }

  lemma {:induction false} NoLimitKid(kid: Kid, room: int)
    requires room < 0
    ensures CutOneKid(kid, room) == OneKidPairs(kid)
    decreases kid, 2
  {
    NoLimit(kid.node, room);
  }

  lemma {:induction false} CutPairsNonEmpty(n: Node, room: int)
    requires WellFormed(n)
    ensures CutPairs(n, room) != []
    decreases n
  {
    if room != 0 {
      match n
      case Final(_) =>
      case Intermediate(_, next) =>
      case Linear(bytes, next) =>
        if !(0 < room < |bytes|) {
          CutPairsNonEmpty(next, RoomLeft(room, |bytes|));
        }
      case Branch(kids) =>
        assert KidWellFormed(kids[0]);
        CutPairsNonEmpty(kids[0].node, RoomLeft(room, 1));
        assert CutOneKid(kids[0], room) != [];
    }
  }

  lemma {:induction false} CutKidsSplit(kids: seq<Kid>, i: nat, room: int)
    requires i <= |kids|
    ensures CutKidPairs(kids, room) == CutKidPairs(kids[..i], room) + CutKidPairs(kids[i..], room)
  {
    if i == 0 {
      assert kids[..0] == [] && kids[0..] == kids;
    } else {
      CutKidsSplit(kids[1..], i - 1, room);
      assert kids[1..][..i - 1] == kids[..i][1..];
      assert kids[1..][i - 1..] == kids[i..];
      assert kids[..i][0] == kids[0];
    }
  }

  lemma PrependAppend(prefix: seq<int>, p: seq<Pair>, q: seq<Pair>)
    ensures Prepend(prefix, p + q) == Prepend(prefix, p) + Prepend(prefix, q)
  {
  }

  lemma PrependTwice(a: seq<int>, b: seq<int>, p: seq<Pair>)
    ensures Prepend(a, Prepend(b, p)) == Prepend(a + b, p)
  {
    forall i | 0 <= i < |p|
      ensures Prepend(a, Prepend(b, p))[i] == Prepend(a + b, p)[i]
    {
      assert a + (b + p[i].key) == (a + b) + p[i].key;
    }
  }

  /** A branch state on the stack: the kids still to visit, and the string in front of them. */
  datatype Frame = Frame(kids: seq<Kid>, prefix: seq<int>)

  /** What is left of the length limit after the string str. */
  function Room(maxLength: int, str: seq<int>): int {
    if maxLength > 0 then maxLength - |str| else -1
  }

  function NodeTodo(maxLength: int, str: seq<int>, n: Node): seq<Pair> {
    Prepend(str, CutPairs(n, Room(maxLength, str)))
  }

  function KidsTodo(maxLength: int, str: seq<int>, kids: seq<Kid>): seq<Pair> {
    Prepend(str, CutKidPairs(kids, Room(maxLength, str)))
  }

  /** The pairs which the stack still stands for, top first. */
  function FramesTodo(maxLength: int, frames: seq<Frame>): seq<Pair> {
    if frames == [] then []
    else
      var top := frames[|frames| - 1];
      KidsTodo(maxLength, top.prefix, top.kids) + FramesTodo(maxLength, frames[..|frames| - 1])
  }

  ghost predicate FrameAt(b: seq<Byte>, offset: int, packed: int, frame: Frame) {
    && 0 <= offset && BranchAt(b, offset, frame.kids)
    && 0 < |frame.kids| <= 0x100 && |frame.prefix| <= 0xffff
    && packed == |frame.kids| * 0x1_0000 + |frame.prefix|
  }

  /**
   The stack holds an offset and a packed pair of lengths for each frame; the string of
   each frame starts with the string of the frame below.
   */
  ghost predicate StackAt(b: seq<Byte>, maxLength: int, stack: seq<int>, frames: seq<Frame>, str: seq<int>)
    decreases frames
  {
    if frames == [] then
      stack == []
    else
      var top, n := frames[|frames| - 1], |stack|;
      && n >= 2 && FrameAt(b, stack[n - 2], stack[n - 1], top)
      && top.prefix <= str && (maxLength > 0 ==> |top.prefix| < maxLength)
      && StackAt(b, maxLength, stack[..n - 2], frames[..|frames| - 1], top.prefix)
  }

  lemma PushState(b: seq<Byte>, maxLength: int, stack: seq<int>, frames: seq<Frame>, str: seq<int>,
                  offset: int, packed: int, kids: seq<Kid>)
    requires StackAt(b, maxLength, stack, frames, str)
    requires FrameAt(b, offset, packed, Frame(kids, str)) && (maxLength > 0 ==> |str| < maxLength)
    ensures StackAt(b, maxLength, stack + [offset, packed], frames + [Frame(kids, str)], str)
  {
    assert (stack + [offset, packed])[..|stack|] == stack;
    assert (frames + [Frame(kids, str)])[..|frames|] == frames;
  }

  lemma PushFrame(maxLength: int, frames: seq<Frame>, frame: Frame)
    ensures FramesTodo(maxLength, frames + [frame]) ==
              KidsTodo(maxLength, frame.prefix, frame.kids) + FramesTodo(maxLength, frames)
  {
    assert (frames + [frame])[..|frames|] == frames;
  }

  /** A branch of kids is its two halves, one after the other. */
  lemma KidsTodoSplit(maxLength: int, str: seq<int>, kids: seq<Kid>, i: nat)
    requires i <= |kids|
    ensures KidsTodo(maxLength, str, kids) == KidsTodo(maxLength, str, kids[..i]) + KidsTodo(maxLength, str, kids[i..])
  {
    var room := Room(maxLength, str);
    CutKidsSplit(kids, i, room);
    PrependAppend(str, CutKidPairs(kids[..i], room), CutKidPairs(kids[i..], room));
  }

  /** The first kid of a branch, and the others. */
  lemma KidsTodoFirst(maxLength: int, str: seq<int>, kids: seq<Kid>)
    requires kids != [] && (maxLength > 0 ==> |str| < maxLength)
    ensures KidsTodo(maxLength, str, kids) ==
              NodeTodo(maxLength, str + [kids[0].key], kids[0].node) + KidsTodo(maxLength, str, kids[1..])
  {
    var room := Room(maxLength, str);
    PrependAppend(str, CutOneKid(kids[0], room), CutKidPairs(kids[1..], room));
    PrependTwice(str, [kids[0].key], CutPairs(kids[0].node, RoomLeft(room, 1)));
  }

  const NULL := -1

  class Iterator {
    const bytes: seq<Byte>
    const maxLength: int
    var pos: int
    var str: seq<int>
    var stack: seq<int>
    var value: int

    /** The tree which the bytes stand for, the node at pos, and the trees on the stack. */
    ghost const root: Node
    ghost var node: Node
    ghost var frames: seq<Frame>

    ghost predicate Valid()
      reads this
    {
      && NodeAt(bytes, 0, root) && WellFormed(root)
      && (pos != NULL ==> 0 <= pos && NodeAt(bytes, pos, node) && WellFormed(node))
      && StackAt(bytes, maxLength, stack, frames, str)
      && (maxLength > 0 ==> |str| <= maxLength)
      && forall p :: p in Todo() ==> |p.key| <= 0xffff
    }

    /** The pairs which are still to come. */
    ghost function Todo(): seq<Pair>
      reads this
    {
      (if pos == NULL then [] else NodeTodo(maxLength, str, node)) + FramesTodo(maxLength, frames)
    }

    constructor (trieBytes: seq<Byte>, maxStringLength: int, ghost tree: Node)
      requires NodeAt(trieBytes, 0, tree)
      requires forall p :: p in CutPairs(tree, Room(maxStringLength, [])) ==> |p.key| <= 0xffff
      ensures Valid() && bytes == trieBytes && root == tree && maxLength == maxStringLength
      ensures Todo() == CutPairs(tree, Room(maxStringLength, []))
    {
      bytes, maxLength := trieBytes, maxStringLength;
      pos, str, stack, value := 0, [], [], 0;
      root, node, frames := tree, tree, [];
      new;
      NodeAtWellFormed(bytes, 0, root);
      PrependNothing(CutPairs(root, Room(maxLength, [])));
    }

    method Reset()
      requires Valid()
      requires forall p :: p in CutPairs(root, Room(maxLength, [])) ==> |p.key| <= 0xffff
      modifies this
      ensures Valid() && Todo() == CutPairs(root, Room(maxLength, []))
    {
      pos, str, stack := 0, [], [];
      node, frames := root, [];
      PrependNothing(CutPairs(root, Room(maxLength, [])));
    }

    method HasNext() returns (r: bool)
      requires Valid()
      ensures r <==> Todo() != []
    {
      r := pos != NULL || stack != [];
      if pos != NULL {
        CutPairsNonEmpty(node, Room(maxLength, str));
      } else if frames != [] {
        var top := frames[|frames| - 1];
        FrameNonEmpty(bytes, stack[|stack| - 2], top.kids, Room(maxLength, top.prefix));
      }
    }

    /** Pushes the state for the rest of a branch. */
    method Push(offset: int, ghost kids: seq<Kid>, length: int)
      requires 0 <= offset && BranchAt(bytes, offset, kids) && length == |kids| <= 0x100
      requires |str| <= 0xffff && StackAt(bytes, maxLength, stack, frames, str)
      requires maxLength > 0 ==> |str| < maxLength
      modifies this`stack, this`frames
      ensures frames == old(frames) + [Frame(kids, str)] && StackAt(bytes, maxLength, stack, frames, str)
      ensures FramesTodo(maxLength, frames) == KidsTodo(maxLength, str, kids) + old(FramesTodo(maxLength, frames))
    {
      PushFrame(maxLength, frames, Frame(kids, str));
      PushState(bytes, maxLength, stack, frames, str, offset, length * 0x1_0000 + |str|, kids);
      stack := stack + [offset, length * 0x1_0000 + |str|];
      frames := frames + [Frame(kids, str)];
    }

    /** Follows the less-than edges of a branch and pushes the others. */
    method Descend(pos0: nat, length0: nat, ghost kids: seq<Kid>)
      returns (q: nat, length: nat, ghost rest: seq<Kid>)
      requires 2 <= |kids| == length0 <= 0x100 && BranchAt(bytes, pos0, kids)
      requires |str| <= 0xffff && StackAt(bytes, maxLength, stack, frames, str)
      requires maxLength > 0 ==> |str| < maxLength
      modifies this`stack, this`frames
      ensures StackAt(bytes, maxLength, stack, frames, str)
      ensures 2 <= |rest| == length <= kMaxBranchLinearSubNodeLength
      ensures BranchAt(bytes, q, rest) && forall k :: k in rest ==> k in kids
      ensures KidsTodo(maxLength, str, rest) + FramesTodo(maxLength, frames)
              == old(KidsTodo(maxLength, str, kids) + FramesTodo(maxLength, frames))
    {
      hide KidsTodo, FramesTodo, StackAt, NodeAt;
      ghost var todo := KidsTodo(maxLength, str, kids) + FramesTodo(maxLength, frames);
      q, length, rest := pos0, length0, kids;
      while length > kMaxBranchLinearSubNodeLength
        invariant 2 <= |rest| == length <= 0x100 && BranchAt(bytes, q, rest)
        invariant forall k :: k in rest ==> k in kids
        invariant StackAt(bytes, maxLength, stack, frames, str)
        invariant KidsTodo(maxLength, str, rest) + FramesTodo(maxLength, frames) == todo
      {
        ghost var half := length / 2;
        KidsTodoSplit(maxLength, str, rest, half);
        ghost var before := FramesTodo(maxLength, frames);
        Push(SkipDelta(bytes, q + 1), rest[half..], length - length / 2);
        q := JumpByDelta(bytes, q + 1);
        length := length / 2;
        Associate(KidsTodo(maxLength, str, rest[..half]), KidsTodo(maxLength, str, rest[half..]), before);
        rest := rest[..half];
      }
    }

    /** Takes the first outbound edge of a branch and pushes the state for the rest. */
    method BranchNext(pos0: nat, length0: nat, ghost kids: seq<Kid>) returns (p: int, ghost m: Node)
      requires 2 <= |kids| == length0 <= 0x100 && BranchAt(bytes, pos0, kids)
      requires |str| <= 0xffff && StackAt(bytes, maxLength, stack, frames, str)
      requires maxLength > 0 ==> |str| < maxLength
      modifies this
      ensures StackAt(bytes, maxLength, stack, frames, str)
      ensures |str| == |old(str)| + 1
      ensures p != NULL ==> 0 <= p && NodeAt(bytes, p, m) && WellFormed(m)
      ensures p == NULL ==> pos == NULL
      ensures exists k :: k in kids && m == k.node
      ensures (if p == NULL then [Pair(str, value)] else NodeTodo(maxLength, str, m)) + FramesTodo(maxLength, frames)
              == old(KidsTodo(maxLength, str, kids) + FramesTodo(maxLength, frames))
    {
      var q, length;
      ghost var rest;
      q, length, rest := Descend(pos0, length0, kids);
      p, m := TakeFirst(q, length, rest);
    }

    /** Takes the first kid of a list, and pushes the state for the others. */
    method TakeFirst(q: nat, length: nat, ghost kids: seq<Kid>) returns (p: int, ghost m: Node)
      requires 2 <= |kids| == length <= kMaxBranchLinearSubNodeLength && BranchAt(bytes, q, kids)
      requires |str| <= 0xffff && StackAt(bytes, maxLength, stack, frames, str)
      requires maxLength > 0 ==> |str| < maxLength
      modifies this
      ensures StackAt(bytes, maxLength, stack, frames, str)
      ensures |str| == |old(str)| + 1
      ensures p != NULL ==> 0 <= p && NodeAt(bytes, p, m) && WellFormed(m)
      ensures p == NULL ==> pos == NULL
      ensures exists k :: k in kids && m == k.node
      ensures (if p == NULL then [Pair(str, value)] else NodeTodo(maxLength, str, m)) + FramesTodo(maxLength, frames)
              == old(KidsTodo(maxLength, str, kids) + FramesTodo(maxLength, frames))
    {
      hide KidsTodo, NodeTodo, FramesTodo, StackAt, BranchAt, NodeAt;
      ghost var before := FramesTodo(maxLength, frames);
      KidsTodoFirst(maxLength, str, kids);
      var trieByte, isFinal, v, after := ReadKid(q, kids);
      m := kids[0].node;
      assert kids[0] in kids;
      Push(after, kids[1..], length - 1);
      Associate(NodeTodo(maxLength, str + [trieByte], m), KidsTodo(maxLength, str, kids[1..]), before);
      ExtendString(bytes, maxLength, stack, frames, str, [trieByte]);
      str := str + [trieByte];
      value := v;
      if isFinal {
        pos, p := NULL, NULL;
        FinalTodo(maxLength, str, v);
      } else {
        p := after + v;
      }
    }

    /** Reads the first (key, value) pair of a list. */
    method ReadKid(q: nat, ghost kids: seq<Kid>) returns (trieByte: int, isFinal: bool, v: int, after: nat)
      requires 2 <= |kids| <= kMaxBranchLinearSubNodeLength && BranchAt(bytes, q, kids)
      ensures trieByte == kids[0].key && BranchAt(bytes, after, kids[1..])
      ensures isFinal ==> kids[0].node == Final(v)
      ensures !isFinal ==> after + v >= 0 && NodeAt(bytes, after + v, kids[0].node) && WellFormed(kids[0].node)
    {
      FirstKid(bytes, q, kids);
      trieByte := bytes[q];
      isFinal := bytes[q + 1] % 2 == 1;
      v := ReadValue(bytes, q + 2, bytes[q + 1] / 2);
      after := SkipValue(bytes, q + 1);
    }

    /** Stops with a string which is cut off at the length limit. */
    method TruncateAndStop()
      modifies this`pos, this`value
      ensures pos == NULL && value == -1
    {
      pos := NULL;
      value := -1;
    }

    /** Pops a branch state and continues with its next outbound edge. */
    method Pop() returns (p: int, ghost n: Node)
      requires Valid() && pos == NULL && stack != []
      modifies this
      ensures StackAt(bytes, maxLength, stack, frames, str) && (maxLength > 0 ==> |str| <= maxLength)
      ensures p != NULL ==> 0 <= p && NodeAt(bytes, p, n) && WellFormed(n)
      ensures p == NULL ==> pos == NULL
      ensures (if p == NULL then [Pair(str, value)] else NodeTodo(maxLength, str, n)) + FramesTodo(maxLength, frames)
              == old(Todo())
    {
      hide KidsTodo, NodeTodo, BranchAt, NodeAt;
      ghost var top := frames[|frames| - 1];
      assert FrameAt(bytes, stack[|stack| - 2], stack[|stack| - 1], top);
      var length := stack[|stack| - 1];
      assert length % 0x1_0000 == |top.prefix| && length / 0x1_0000 == |top.kids|;
      p := stack[|stack| - 2];
      stack := stack[..|stack| - 2];
      frames := frames[..|frames| - 1];
      str := str[..length % 0x1_0000];
      length := length / 0x1_0000;
      assert str == top.prefix && length == |top.kids| && 0 <= p && BranchAt(bytes, p, top.kids);
      if length > 1 {
        p, n := BranchNext(p, length, top.kids);
      } else {
        OneKidTodo(maxLength, str, top.kids);
        LastKid(bytes, p, top.kids);
        n := top.kids[0].node;
        ExtendString(bytes, maxLength, stack, frames, str, [bytes[p]]);
        str := str + [bytes[p]];
        p := p + 1;
      }
    }

    /** Delivers the next pair. */
    method Next() returns (more: bool)
      requires Valid()
      modifies this
      ensures Valid()
      ensures more <==> old(Todo()) != []
      ensures if more then Pair(str, value) == old(Todo())[0] && Todo() == old(Todo())[1..] else Todo() == []
    {
      ghost var todo := Todo();
      var p := pos;
      ghost var n := node;
      if p == NULL {
        if stack == [] {
          return false;
        }
        p, n := Pop();
        if p == NULL {
          return true;
        }
      }
      Walk(p, n, todo);
      more := true;
    }

    /** Delivers the value of the value node at p. */
    method Deliver(p: nat, ghost n: Node)
      requires NodeAt(bytes, p, n) && WellFormed(n) && n.IsValue()
      requires maxLength > 0 ==> |str| <= maxLength
      modifies this`pos, this`value, this`node
      ensures pos != NULL ==> 0 <= pos && NodeAt(bytes, pos, node) && WellFormed(node)
      ensures NodeTodo(maxLength, str, n) ==
                [Pair(str, value)] + (if pos == NULL then [] else NodeTodo(maxLength, str, node))
    {
      ValueTodo(maxLength, str, n);
      value := ReadValue(bytes, p + 1, bytes[p] / 2);
      if bytes[p] % 2 == 1 || (maxLength > 0 && |str| == maxLength) {
        pos := NULL;
      } else {
        pos := SkipValue(bytes, p);
        node := n.next;
      }
    }

    /** Appends the bytes of the linear-match node at p, or as many as fit. */
    method AppendLinear(p0: nat, ghost n: Node) returns (p: int)
      requires NodeAt(bytes, p0, n) && n.Linear?
      requires StackAt(bytes, maxLength, stack, frames, str) && (maxLength > 0 ==> |str| < maxLength)
      modifies this`str, this`pos, this`value
      ensures StackAt(bytes, maxLength, stack, frames, str) && (maxLength > 0 ==> |str| <= maxLength)
      ensures p != NULL ==> 0 <= p && NodeAt(bytes, p, n.next) && pos == old(pos)
      ensures p == NULL ==> pos == NULL
      ensures old(NodeTodo(maxLength, str, n)) ==
                if p == NULL then [Pair(str, value)] else NodeTodo(maxLength, str, n.next)
    {
      hide NodeTodo, StackAt;
      var length := bytes[p0] - kMinLinearMatch + 1;
      p := p0 + 1;
      LinearTodo(maxLength, str, n.bytes, n.next);
      if maxLength > 0 && |str| + length > maxLength {
        length := maxLength - |str|;
        assert bytes[p..p + length] == n.bytes[..length];
        ExtendString(bytes, maxLength, stack, frames, str, bytes[p..p + length]);
        str := str + bytes[p..p + length];
        TruncateAndStop();
        p := NULL;
      } else {
        ExtendString(bytes, maxLength, stack, frames, str, bytes[p..p + length]);
        str := str + bytes[p..p + length];
        p := p + length;
      }
    }

    /** Walks from a node to the next value. */
    method Walk(p0: nat, ghost n0: Node, ghost todo: seq<Pair>)
      requires NodeAt(bytes, 0, root) && WellFormed(root)
      requires NodeAt(bytes, p0, n0) && WellFormed(n0)
      requires StackAt(bytes, maxLength, stack, frames, str) && (maxLength > 0 ==> |str| <= maxLength)
      requires NodeTodo(maxLength, str, n0) + FramesTodo(maxLength, frames) == todo
      requires forall p :: p in todo ==> |p.key| <= 0xffff
      modifies this
      ensures Valid() && todo == [Pair(str, value)] + Todo()
    {
      hide KidsTodo, NodeTodo, FramesTodo, StackAt, BranchAt;
      var p := p0;
      ghost var n := n0;
      while bytes[p] < kMinValueLead
        invariant 0 <= p && NodeAt(bytes, p, n) && WellFormed(n)
        invariant StackAt(bytes, maxLength, stack, frames, str) && (maxLength > 0 ==> |str| <= maxLength)
        invariant NodeTodo(maxLength, str, n) + FramesTodo(maxLength, frames) == todo
        decreases n
      {
        var lead := bytes[p];
        if maxLength > 0 && |str| == maxLength {
          CutTodo(maxLength, str, n);
          TruncateAndStop();
          return;
        }
        if lead < kMinLinearMatch {
          p := p + 1;
          if lead == 0 {
            lead := bytes[p];
            p := p + 1;
          }
          StringLength(maxLength, str, n, FramesTodo(maxLength, frames));
          BranchTodo(maxLength, str, n);
          p, n := BranchNext(p, lead + 1, n.kids);
        } else {
          p := AppendLinear(p, n);
          n := n.next;
        }
        if p == NULL {
          return;
        }
      }
      Deliver(p, n);
    }
  }

  lemma ValueTodo(maxLength: int, str: seq<int>, n: Node)
    requires n.IsValue() && (maxLength > 0 ==> |str| <= maxLength)
    ensures n.Final? || |str| == maxLength > 0 ==> NodeTodo(maxLength, str, n) == [Pair(str, n.value)]
    ensures n.Intermediate? && !(|str| == maxLength > 0) ==>
      NodeTodo(maxLength, str, n) == [Pair(str, n.value)] + NodeTodo(maxLength, str, n.next)
  {
    assert str + [] == str;
    if n.Intermediate? {
      PrependAppend(str, [Pair([], n.value)], CutPairs(n.next, Room(maxLength, str)));
    }
  }

  lemma CutTodo(maxLength: int, str: seq<int>, n: Node)
    requires !n.IsValue() && |str| == maxLength > 0
    ensures NodeTodo(maxLength, str, n) == [Pair(str, -1)]
  {
    assert str + [] == str;
  }

  lemma BranchTodo(maxLength: int, str: seq<int>, n: Node)
    requires n.Branch? && (maxLength > 0 ==> |str| < maxLength)
    ensures NodeTodo(maxLength, str, n) == KidsTodo(maxLength, str, n.kids)
  {
  }

  lemma LinearTodo(maxLength: int, str: seq<int>, bytes: seq<int>, next: Node)
    requires maxLength > 0 ==> |str| < maxLength
    ensures NodeTodo(maxLength, str, Linear(bytes, next)) ==
      if maxLength > 0 && |str| + |bytes| > maxLength then [Pair(str + bytes[..maxLength - |str|], -1)]
      else NodeTodo(maxLength, str + bytes, next)
  {
    PrependTwice(str, bytes, CutPairs(next, RoomLeft(Room(maxLength, str), |bytes|)));
  }

  /** Every string on the way to a pair is at most as long as the longest key. */
  lemma StringLength(maxLength: int, str: seq<int>, n: Node, rest: seq<Pair>)
    requires WellFormed(n)
    requires forall p :: p in NodeTodo(maxLength, str, n) + rest ==> |p.key| <= 0xffff
    ensures |str| <= 0xffff
  {
    CutPairsNonEmpty(n, Room(maxLength, str));
    assert NodeTodo(maxLength, str, n)[0] in NodeTodo(maxLength, str, n) + rest;
  }

  /** The only kid of a branch. */
  lemma OneKidTodo(maxLength: int, str: seq<int>, kids: seq<Kid>)
    requires |kids| == 1 && (maxLength > 0 ==> |str| < maxLength)
    ensures KidsTodo(maxLength, str, kids) == NodeTodo(maxLength, str + [kids[0].key], kids[0].node)
  {
    KidsTodoFirst(maxLength, str, kids);
    assert kids[1..] == [];
  }

  lemma LastKid(b: seq<Byte>, p: nat, kids: seq<Kid>)
    requires |kids| == 1 && BranchAt(b, p, kids)
    ensures p < |b| && b[p] == kids[0].key
    ensures NodeAt(b, p + 1, kids[0].node) && WellFormed(kids[0].node)
  {
    BranchAtWellFormed(b, p, kids);
    assert KidWellFormed(kids[0]);
  }

  lemma FirstKid(b: seq<Byte>, q: nat, kids: seq<Kid>)
    requires 2 <= |kids| <= kMaxBranchLinearSubNodeLength && BranchAt(b, q, kids)
    ensures q < |b| && b[q] == kids[0].key && ValueFits(b, q + 1)
    ensures BranchAt(b, SkipValue(b, q + 1), kids[1..])
    ensures if IsFinalAt(b, q + 1) then
              kids[0].node == Final(ValueAt(b, q + 1))
            else
              var target := SkipValue(b, q + 1) + ValueAt(b, q + 1);
              target >= 0 && NodeAt(b, target, kids[0].node) && WellFormed(kids[0].node)
  {
    BranchAtWellFormed(b, q, kids);
    assert KidWellFormed(kids[0]);
  }

  lemma ExtendString(b: seq<Byte>, maxLength: int, stack: seq<int>, frames: seq<Frame>, str: seq<int>, more: seq<int>)
    requires StackAt(b, maxLength, stack, frames, str)
    ensures StackAt(b, maxLength, stack, frames, str + more)
  {
  }

  lemma FinalTodo(maxLength: int, str: seq<int>, value: int)
    ensures NodeTodo(maxLength, str, Final(value)) == [Pair(str, value)]
  {
    assert str + [] == str;
  }

  lemma FrameNonEmpty(b: seq<Byte>, offset: nat, kids: seq<Kid>, room: int)
    requires BranchAt(b, offset, kids)
    ensures CutKidPairs(kids, room) != []
  {
    BranchAtWellFormed(b, offset, kids);
    assert KidWellFormed(kids[0]);
    CutPairsNonEmpty(kids[0].node, RoomLeft(room, 1));
  }
}
