/** Building a serialized trie from sorted strings, without sharing nodes. */
module TrieBuilder {
  import opened Basics
  import opened Trie
  import opened TrieCodec
  import opened TrieFormat
  import opened TrieElements
  import opened TrieWritten
  import opened TrieBuffer

  const kMaxSplitBranchLevels := 14

  class TrieBuilder {
    const e: seq<Pair>
    const out: Buffer

    constructor (elements: seq<Pair>, capacity: nat)
      requires Elements(elements) && capacity > 0
      ensures e == elements && fresh(out) && fresh(out.bytes)
      ensures out.Valid() && out.Contents() == [] && out.deltasOk
    {
      e := elements;
      out := new Buffer(capacity);
    }

    /** The buffer only grows in front of what is there. */
    twostate predicate Grown()
      reads out, out.bytes
    {
      && old(out.Valid()) && out.Valid()
      && (out.bytes == old(out.bytes) || fresh(out.bytes))
      && EndsWith(out.Contents(), old(out.Contents()))
      && (out.deltasOk ==> old(out.deltasOk))
    }

    /** The first index after u where the first and last string differ, or the first one ends. */
    method GetLimitOfLinearMatch(first: nat, last: nat, u: nat) returns (byteIndex: nat)
      requires Elements(e) && Group(e, first, last + 1, u) && |e[first].key| > u && |e[last].key| > u
      requires e[first].key[u] == e[last].key[u]
      ensures u < byteIndex <= |e[first].key| && Group(e, first, last + 1, byteIndex)
      ensures byteIndex < |e[first].key| ==>
                byteIndex < |e[last].key| && e[first].key[byteIndex] != e[last].key[byteIndex]
    {
      GroupSame(e, first, last + 1, u);
      byteIndex := u + 1;
      GroupLonger(e, first, last + 1, byteIndex);
      while byteIndex < |e[first].key| && e[first].key[byteIndex] == e[last].key[byteIndex]
        invariant u < byteIndex <= |e[first].key| && Group(e, first, last + 1, byteIndex)
        invariant byteIndex < |e[first].key| ==> byteIndex < |e[last].key|
      {
        GroupSame(e, first, last + 1, byteIndex);
        byteIndex := byteIndex + 1;
        GroupLonger(e, first, last + 1, byteIndex);
      }
    }

    /** The next element whose byte at u is not that of the element at start, or the limit. */
    method EndOfRun(start: nat, limit: nat, u: nat) returns (i: nat)
      requires start < limit <= |e| && forall k :: start <= k < limit ==> |e[k].key| > u
      ensures start < i <= limit && UnitRun(e, start, i, u)
      ensures i < limit ==> e[i].key[u] != e[start].key[u]
    {
      var byte := e[start].key[u];
      i := start + 1;
      while i < limit && byte == e[i].key[u]
        invariant start < i <= limit && UnitRun(e, start, i, u)
      {
        i := i + 1;
      }
    }

    /** The number of different bytes at u, and where they change. */
    method CountElementUnits(start: nat, limit: nat, u: nat) returns (length: nat, ghost bounds: seq<nat>)
      requires Elements(e) && Group(e, start, limit, u) && |e[start].key| > u
      ensures length + 1 == |bounds| && Partition(e, bounds, u)
      ensures bounds[0] == start && bounds[length] == limit
    {
      hide Partition, Elements;
      GroupLonger(e, start, limit, u);
      length := 0;
      var i := start;
      bounds := [start];
      while true
        invariant start <= i < limit && length + 1 == |bounds| && bounds[0] == start && bounds[length] == i
        invariant length > 0 ==> start <= bounds[length - 1] < i && Partition(e, bounds, u)
        invariant length > 0 ==> e[bounds[length - 1]].key[u] < e[i].key[u]
        decreases limit - i
      {
        i := EndOfRun(i, limit, u);
        AddRun(e, bounds, u, i);
        bounds := bounds + [i];
        length := length + 1;
        if i >= limit {
          break;
        }
      }
    }

    /** The start of the next run; some element follows the run which contains i - 1. */
    method IndexOfElementWithNextUnit(i: nat, u: nat, byte: int, ghost start: nat, ghost end: nat) returns (next: nat)
      requires UnitRun(e, start, end, u) && start < i <= end < |e| && e[start].key[u] == byte
      requires |e[end].key| > u && e[end].key[u] != byte
      ensures next == end
    {
      next := i;
      while byte == e[next].key[u]
        invariant start < next <= end
        decreases end - next
      {
        next := next + 1;
      }
    }

    /** The start of the run which is count runs later. */
    method SkipElementsBySomeUnits(start: nat, u: nat, count: nat, ghost bounds: seq<nat>) returns (i: nat)
      requires Partition(e, bounds, u) && bounds[0] == start && 0 < count < |bounds| - 1
      ensures i == bounds[count]
    {
      i := start;
      ghost var n := 0;
      var left := count;
      while left > 0
        invariant left + n == count && i == bounds[n]
      {
        assert UnitRun(e, bounds[n], bounds[n + 1], u);
        i := IndexOfElementWithNextUnit(i + 1, u, e[i].key[u], bounds[n], bounds[n + 1]);
        n := n + 1;
        left := left - 1;
      }
    }

    /** Writes the bytes of a linear-match node, for the bytes u..u+length-1 in front of the node next. */
    method WriteElementUnits(start: nat, u: nat, length: nat, ghost limit: nat, ghost next: Node)
      returns (offset: nat, ghost m: Node)
      requires out.Valid() && Elements(e) && Group(e, start, limit, u + length) && 0 < length <= kMaxLinearMatchLength
      requires NodeOf(e, start, limit, u + length, next) && (out.deltasOk ==> NodeAt(out.Contents(), 0, next))
      modifies out, out.bytes
      ensures out.Valid() && (out.bytes == old(out.bytes) || fresh(out.bytes))
      ensures out.deltasOk == old(out.deltasOk) && offset == out.bytesLength
      ensures EndsWith(out.Contents(), old(out.Contents()))
      ensures Group(e, start, limit, u)
      ensures !m.IsValue() && NodeOf(e, start, limit, u, m)
      ensures out.deltasOk ==> HeadedNodeAt(kMinLinearMatch + length - 1, out.Contents(), m)
    {
      hide DeltaBytes, ValueBytes, Buffer.Contents, Elements, Group, NodeAt, NodeOf, HeadedNodeAt, EndsWith;
      ghost var d := out.Contents();
      LongEnough(e, start, limit, u + length);
      var bytes := ElementBytes(e, start, u, u + length);
      offset := out.WriteBytes(bytes);
      m := LinearChunk(e, start, limit, u, u + length, bytes, next, out.deltasOk, d, out.Contents());
    }

    /** A linear-match node of the largest length. */
    method WriteFullLinearMatch(start: nat, u: nat, ghost limit: nat, ghost next: Node) returns (ghost m: Node)
      requires out.Valid() && Elements(e) && Group(e, start, limit, u + kMaxLinearMatchLength)
      requires NodeOf(e, start, limit, u + kMaxLinearMatchLength, next)
      requires out.deltasOk ==> NodeAt(out.Contents(), 0, next)
      modifies out, out.bytes
      ensures Grown() && Group(e, start, limit, u)
      ensures NodeOf(e, start, limit, u, m) && (out.deltasOk ==> NodeAt(out.Contents(), 0, m))
    {
      hide DeltaBytes, ValueBytes, Buffer.Contents, Elements, Group, NodeAt, NodeOf, EndsWith;
      ghost var c0 := out.Contents();
      var offset;
      offset, m := WriteElementUnits(start, u, kMaxLinearMatchLength, limit, next);
      ghost var tail := out.Contents();
      var lead: Byte := kMinLinearMatch + kMaxLinearMatchLength - 1;
      offset := out.Write(lead);
      EndsWithTail([lead], tail, out.Contents());
      EndsWithTwice(out.Contents(), tail, c0);
    }

    /** Serializes the elements start..limit-1 without the bytes before u, which they have in common. */
    method WriteNode(start: nat, limit: nat, u: nat) returns (offset: nat, ghost n: Node)
      requires out.Valid() && Elements(e) && Group(e, start, limit, u)
      modifies out, out.bytes
      ensures Grown() && offset == out.bytesLength
      ensures NodeOf(e, start, limit, u, n)
      ensures out.deltasOk ==> NodeAt(out.Contents(), 0, n)
      decreases limit - start, |e[limit - 1].key| - u, 5
    {
      hide DeltaBytes, ValueBytes, Buffer.Contents, Elements, Group, NodeAt, NodeOf, HeadedNodeAt, EndsWith;
      ghost var c0 := out.Contents();
      LongEnough(e, start, limit, u);
      IsElementValue(e, start);
      var hasValue, value, first := false, 0, start;
      if u == |e[first].key| {
        value := e[first].value;
        first := first + 1;
        if first == limit {
          offset := out.WriteValueAndFinal(value, true);
          n := FinalNode(e, start, u, c0, out.Contents());
          return;
        }
        hasValue := true;
      }
      LongerPart(e, start, limit, u, first);
      var kind;
      ghost var m;
      if e[first].key[u] == e[limit - 1].key[u] {
        kind, m := WriteLinearMatch(first, limit, u);
      } else {
        kind, m := WriteBranch(first, limit, u);
      }
      ghost var d := out.Contents();
      offset := out.WriteValueAndType(hasValue, value, kind);
      n := ValueAndType(e, start, limit, u, first, kind, m, out.deltasOk, d, out.Contents());
      EndsWithTwice(out.Contents(), d, c0);
    }

    /** All but the lead byte of the first of some linear-match nodes. */
    method WriteLinearMatch(start: nat, limit: nat, u: nat) returns (kind: Byte, ghost m: Node)
      requires out.Valid() && Elements(e) && Group(e, start, limit, u)
      requires |e[start].key| > u && |e[limit - 1].key| > u && e[start].key[u] == e[limit - 1].key[u]
      modifies out, out.bytes
      ensures Grown() && !m.IsValue() && NodeOf(e, start, limit, u, m)
      ensures out.deltasOk ==> HeadedNodeAt(kind, out.Contents(), m)
      decreases limit - start, |e[limit - 1].key| - u, 4
    {
      hide DeltaBytes, ValueBytes, Buffer.Contents, Elements, Group, NodeAt, NodeOf, HeadedNodeAt, EndsWith;
      LongEnough(e, start, limit, u);
      ghost var c0 := out.Contents();
      var lastUnitIndex := GetLimitOfLinearMatch(start, limit - 1, u);
      LongEnough(e, start, limit, lastUnitIndex);
      var offset;
      offset, m := WriteNode(start, limit, lastUnitIndex);
      ghost var d := out.Contents();
      kind, m := WriteLinearChunks(start, u, lastUnitIndex, limit, m);
      EndsWithTwice(out.Contents(), d, c0);
    }

    /** Breaks the bytes u..lastUnit-1 into chunks of at most kMaxLinearMatchLength, the last one first. */
    method WriteLinearChunks(start: nat, u: nat, lastUnit: nat, ghost limit: nat, ghost next: Node)
      returns (kind: Byte, ghost m: Node)
      requires out.Valid() && Elements(e) && u < lastUnit && Group(e, start, limit, lastUnit)
      requires NodeOf(e, start, limit, lastUnit, next) && (out.deltasOk ==> NodeAt(out.Contents(), 0, next))
      modifies out, out.bytes
      ensures Grown() && !m.IsValue() && NodeOf(e, start, limit, u, m)
      ensures out.deltasOk ==> HeadedNodeAt(kind, out.Contents(), m)
    {
      hide Buffer.Contents, Elements, Group, NodeAt, NodeOf, HeadedNodeAt, EndsWith;
      ghost var c0 := out.Contents();
      EndsWithSelf(c0);
      m := next;
      var length, lastUnitIndex := lastUnit - u, lastUnit;
      while length > kMaxLinearMatchLength
        invariant length == lastUnitIndex - u && 0 < length && Group(e, start, limit, lastUnitIndex)
        invariant Grown() && EndsWith(out.Contents(), c0)
        invariant NodeOf(e, start, limit, lastUnitIndex, m)
        invariant out.deltasOk ==> NodeAt(out.Contents(), 0, m)
      {
        ghost var d := out.Contents();
        lastUnitIndex := lastUnitIndex - kMaxLinearMatchLength;
        length := length - kMaxLinearMatchLength;
        m := WriteFullLinearMatch(start, lastUnitIndex, limit, m);
        EndsWithTwice(out.Contents(), d, c0);
      }
      ghost var d := out.Contents();
      var offset;
      offset, m := WriteElementUnits(start, u, length, limit, m);
      kind := kMinLinearMatch + length - 1;
      EndsWithTwice(out.Contents(), d, c0);
    }

    /** All but the lead byte of a branch node; a long branch has a length byte of its own. */
    method WriteBranch(start: nat, limit: nat, u: nat) returns (kind: Byte, ghost m: Node)
      requires out.Valid() && Elements(e) && Group(e, start, limit, u)
      requires |e[start].key| > u && |e[limit - 1].key| > u && e[start].key[u] != e[limit - 1].key[u]
      modifies out, out.bytes
      ensures Grown() && !m.IsValue() && NodeOf(e, start, limit, u, m)
      ensures out.deltasOk ==> HeadedNodeAt(kind, out.Contents(), m)
      decreases limit - start, |e[limit - 1].key| - u, 4
    {
      hide DeltaBytes, ValueBytes, Buffer.Contents, Elements, Group, NodeAt, NodeOf, HeadedNodeAt, EndsWith, Partition, KidsOf, BranchAt;
      LongEnough(e, start, limit, u);
      ghost var c0 := out.Contents();
      var length, bounds := CountElementUnits(start, limit, u);
      BranchLength(e, bounds, u);
      var offset;
      ghost var kids;
      offset, kids := WriteBranchSubNode(start, limit, u, length, bounds);
      ghost var d := out.Contents();
      length := length - 1;
      if length < kMinLinearMatch {
        kind := length;
      } else {
        offset := out.Write(length);
        kind := 0;
      }
      m := BranchNode(e, bounds, u, kids, out.deltasOk, d, out.Contents(), kind);
      EndsWithTwice(out.Contents(), d, c0);
    }

    /** The search tree for the bytes at u, where length of them are different. */
    method WriteBranchSubNode(start: nat, limit: nat, u: nat, length: nat, ghost bounds: seq<nat>)
      returns (offset: nat, ghost kids: seq<Kid>)
      requires out.Valid() && Elements(e) && Group(e, start, limit, u) && 2 <= length <= 0x100
      requires Partition(e, bounds, u) && Covers(bounds, start, limit, length)
      modifies out, out.bytes
      ensures Grown() && offset == out.bytesLength && KidsOf(e, bounds, u, kids)
      ensures out.deltasOk ==> BranchAt(out.Contents(), 0, kids)
      decreases limit - start, |e[limit - 1].key| - u, 3
    {
      hide Buffer.Contents, Elements, Group, EndsWith, Partition, KidsOf, BranchAt, SplitsOk;
      ghost var c0 := out.Contents();
      var middleUnits, lessThan, from, left;
      ghost var splits, part;
      middleUnits, lessThan, from, left, splits, part := WriteLesserBranches(start, limit, u, length, bounds);
      ghost var d, wasOk := out.Contents(), out.deltasOk;
      offset, kids := WriteListBranch(from, limit, u, left, part);
      SplitsKept(e, u, splits, bounds, part, d, wasOk, out.Contents(), out.deltasOk);
      EndsWithTwice(out.Contents(), d, c0);
      d := out.Contents();
      offset, kids := WriteSplits(u, middleUnits, lessThan, splits, bounds, part, kids);
      EndsWithTwice(out.Contents(), d, c0);
    }

    /** While there are too many bytes for a list, writes the search tree for the lower half of them. */
    method WriteLesserBranches(start: nat, limit: nat, u: nat, length: nat, ghost bounds: seq<nat>)
      returns (middleUnits: seq<Byte>, lessThan: seq<nat>, from: nat, left: nat,
               ghost splits: seq<Split>, ghost part: seq<nat>)
      requires out.Valid() && Elements(e) && Group(e, start, limit, u) && 2 <= length <= 0x100
      requires Partition(e, bounds, u) && Covers(bounds, start, limit, length)
      modifies out, out.bytes
      ensures Grown() && start <= from < limit && 2 <= left <= kMaxBranchLinearSubNodeLength
      ensures Group(e, from, limit, u) && Partition(e, part, u) && Covers(part, from, limit, left)
      ensures Written(splits, middleUnits, lessThan) && |splits| <= kMaxSplitBranchLevels
      ensures SplitsOk(e, u, splits, bounds, part, out.Contents(), out.deltasOk)
      decreases limit - start, |e[limit - 1].key| - u, 2
    {
      hide Buffer.Contents, Elements, Group, EndsWith, Partition, KidsOf, BranchAt, SplitsOk, SplitOk, Covers;
      ghost var c0 := out.Contents();
      EndsWithSelf(c0);
      SplitsOkInit(e, u, bounds, c0, out.deltasOk);
      LongEnough(e, start, limit, u);
      middleUnits, lessThan, from, left, splits, part := [], [], start, length, [], bounds;
      while left > kMaxBranchLinearSubNodeLength
        invariant 2 <= left <= 0x100 && FewSplits(|splits|, left) && Written(splits, middleUnits, lessThan)
        invariant start <= from < limit && Group(e, from, limit, u)
        invariant Partition(e, part, u) && Covers(part, from, limit, left)
        invariant Grown() && EndsWith(out.Contents(), c0)
        invariant SplitsOk(e, u, splits, bounds, part, out.Contents(), out.deltasOk)
      {
        ghost var d, wasOk := out.Contents(), out.deltasOk;
        var i, target, middle;
        ghost var lesser;
        i, middle, target, lesser := WriteLesserBranch(start, limit, u, from, left, part);
        SplitsKept(e, u, splits, bounds, part, d, wasOk, out.Contents(), out.deltasOk);
        SplitPushed(e, u, splits, bounds, Split(part, lesser, target, middle), left / 2, out.Contents(), out.deltasOk);
        EndsWithTwice(out.Contents(), d, c0);
        splits := splits + [Split(part, lesser, target, middle)];
        middleUnits, lessThan := middleUnits + [middle], lessThan + [target];
        part := part[left / 2..];
        from, left := i, left - left / 2;
      }
    }

    /** Writes the search tree for the lower half of the bytes at u. */
    method WriteLesserBranch(start: nat, limit: nat, u: nat, from: nat, length: nat, ghost bounds: seq<nat>)
      returns (i: nat, middle: Byte, target: nat, ghost lesser: seq<Kid>)
      requires out.Valid() && Elements(e) && Group(e, start, limit, u) && start <= from < limit
      requires kMaxBranchLinearSubNodeLength < length <= 0x100
      requires Partition(e, bounds, u) && Covers(bounds, from, limit, length)
      modifies out, out.bytes
      ensures Grown() && from < i < limit && Group(e, i, limit, u)
      ensures |bounds| == length + 1 && Partition(e, bounds[length / 2..], u)
      ensures Covers(bounds[length / 2..], i, limit, length - length / 2)
      ensures SplitReady(e, u, Split(bounds, lesser, target, middle), length / 2)
      ensures target == |out.Contents()| && (out.deltasOk ==> BranchAt(out.Contents(), 0, lesser))
      decreases limit - start, |e[limit - 1].key| - u, 1
    {
      hide Elements, Group, EndsWith, Partition, KidsOf, BranchAt;
      var half := length / 2;
      HalfOfPartition(e, start, limit, u, from, bounds, half);
      i := SkipElementsBySomeUnits(from, u, half, bounds);
      middle := ElementUnit(i, u);
      target, lesser := WriteBranchSubNode(from, i, u, half, bounds[..half + 1]);
    }

    /** Writes one split-branch node. */
    method WriteSplit(middle: Byte, lessThan: nat) returns (offset: nat, ghost junk: seq<Byte>)
      requires out.Valid() && lessThan <= out.bytesLength
      modifies out, out.bytes
      ensures out.Valid() && (out.bytes == old(out.bytes) || fresh(out.bytes))
      ensures |junk| == 2 && offset == out.bytesLength
      ensures out.deltasOk == (old(out.deltasOk) && old(out.bytesLength) - lessThan <= kMaxThreeByteDelta)
      ensures out.Contents() == [middle] + (DeltaBytes(old(out.bytesLength) - lessThan, junk) + old(out.Contents()))
    {
      hide DeltaBytes;
      offset, junk := out.WriteDeltaTo(lessThan);
      offset := out.Write(middle);
    }

    /** Writes the split-branch nodes in front of the last part, the innermost one first. */
    method WriteSplits(u: nat, middleUnits: seq<Byte>, lessThan: seq<nat>, ghost splits: seq<Split>,
                       ghost bounds: seq<nat>, ghost lastPart: seq<nat>, ghost lastKids: seq<Kid>)
      returns (offset: nat, ghost kids: seq<Kid>)
      requires out.Valid() && Elements(e) && Written(splits, middleUnits, lessThan)
      requires KidsOf(e, lastPart, u, lastKids) && (out.deltasOk ==> BranchAt(out.Contents(), 0, lastKids))
      requires SplitsOk(e, u, splits, bounds, lastPart, out.Contents(), out.deltasOk)
      modifies out, out.bytes
      ensures Grown() && offset == out.bytesLength && KidsOf(e, bounds, u, kids)
      ensures out.deltasOk ==> BranchAt(out.Contents(), 0, kids)
    {
      hide DeltaBytes, ValueBytes, Buffer.Contents, Elements, Group, NodeAt, NodeOf, HeadedNodeAt, EndsWith, Partition, KidsOf, BranchAt, SplitOk, SplitsOk;
      ghost var c0 := out.Contents();
      EndsWithSelf(c0);
      var ltLength := |lessThan|;
      offset := out.bytesLength;
      kids := lastKids;
      ghost var part, open := lastPart, splits;
      while ltLength > 0
        invariant 0 <= ltLength <= |splits| && open == splits[..ltLength]
        invariant out.Valid() && (out.bytes == old(out.bytes) || fresh(out.bytes)) && (out.deltasOk ==> old(out.deltasOk))
        invariant EndsWith(out.Contents(), c0) && offset == out.bytesLength
        invariant KidsOf(e, part, u, kids) && (out.deltasOk ==> BranchAt(out.Contents(), 0, kids))
        invariant SplitsOk(e, u, open, bounds, part, out.Contents(), out.deltasOk)
      {
        ltLength := ltLength - 1;
        ghost var split := open[ltLength];
        ghost var was, wasOk := out.Contents(), out.deltasOk;
        ghost var junk;
        SplitTarget(e, u, open, bounds, part, was, wasOk);
        offset, junk := WriteSplit(middleUnits[ltLength], lessThan[ltLength]);
        SplitPopped(e, u, open, bounds, part, kids, was, wasOk, out.deltasOk, junk, out.Contents());
        EndsWithTwice(out.Contents(), was, c0);
        kids := split.left + kids;
        part := split.bounds;
        open := open[..ltLength];
      }
      SplitsDone(e, u, bounds, part, out.Contents(), out.deltasOk);
    }

    /** Up to five runs as a list of bytes, each with a final value or a jump, except for the last one. */
    method WriteListBranch(start: nat, limit: nat, u: nat, length: nat, ghost bounds: seq<nat>)
      returns (offset: nat, ghost kids: seq<Kid>)
      requires out.Valid() && Elements(e) && Group(e, start, limit, u) && 2 <= length <= kMaxBranchLinearSubNodeLength
      requires |bounds| == length + 1 && Partition(e, bounds, u) && bounds[0] == start && bounds[length] == limit
      modifies out, out.bytes
      ensures Grown() && offset == out.bytesLength && KidsOf(e, bounds, u, kids)
      ensures out.deltasOk ==> BranchAt(out.Contents(), 0, kids)
      decreases limit - start, |e[limit - 1].key| - u, 1
    {
      hide DeltaBytes, ValueBytes, Buffer.Contents, Elements, Group, NodeAt, NodeOf, HeadedNodeAt, EndsWith, Partition, KidsOf, BranchAt, Listed, KidOf, EndsAlone;
      ghost var c0 := out.Contents();
      var starts, isFinal := FindStarts(start, limit, u, length, bounds);
      var jumpTargets;
      ghost var all;
      jumpTargets, all := WriteSubNodes(start, limit, u, length, bounds, starts, isFinal);
      ghost var d, wasOk := out.Contents(), out.deltasOk;
      StartUnits(e, bounds, u);
      offset, kids := WriteLastKid(starts[length - 1], start, limit, u, bounds);
      EndsWithTwice(out.Contents(), d, c0);
      ListedKept(e, u, bounds, isFinal, jumpTargets, all, 0, length - 1, d, wasOk, out.Contents(), out.deltasOk);
      d := out.Contents();
      offset, kids := WriteList(u, length, bounds, starts, isFinal, jumpTargets, all, kids);
      EndsWithTwice(out.Contents(), d, c0);
    }

    /** Writes the other bytes of a list, each with its final value or jump, in front of the last one. */
    method WriteList(u: nat, length: nat, ghost bounds: seq<nat>, starts: seq<nat>, isFinal: seq<bool>,
                     jumpTargets: seq<nat>, ghost all: seq<Kid>, ghost lastKid: seq<Kid>)
      returns (offset: nat, ghost kids: seq<Kid>)
      requires out.Valid() && Elements(e) && 2 <= length <= kMaxBranchLinearSubNodeLength
      requires |bounds| == length + 1 && starts == bounds[..length]
      requires |isFinal| == |jumpTargets| == |all| == length - 1
      requires forall k :: 0 <= k < length ==> bounds[k] < |e| && |e[bounds[k]].key| > u
      requires Listed(e, u, bounds, isFinal, jumpTargets, all, 0, length - 1, out.Contents(), out.deltasOk)
      requires KidsOf(e, bounds[length - 1..], u, lastKid) && (out.deltasOk ==> BranchAt(out.Contents(), 0, lastKid))
      modifies out, out.bytes
      ensures Grown() && offset == out.bytesLength && KidsOf(e, bounds, u, kids)
      ensures out.deltasOk ==> BranchAt(out.Contents(), 0, kids)
    {
      hide DeltaBytes, ValueBytes, Buffer.Contents, Elements, Group, NodeAt, NodeOf, HeadedNodeAt, EndsWith, Partition, KidsOf, BranchAt, Listed, KidOf;
      ghost var c0 := out.Contents();
      EndsWithSelf(c0);
      offset := out.bytesLength;
      kids := lastKid;
      var unitNumber := length - 1;
      while unitNumber > 0
        invariant unitNumber < length && Grown() && EndsWith(out.Contents(), c0) && offset == out.bytesLength
        invariant KidsOf(e, bounds[unitNumber..], u, kids) && (out.deltasOk ==> BranchAt(out.Contents(), 0, kids))
        invariant Listed(e, u, bounds, isFinal, jumpTargets, all, 0, unitNumber, out.Contents(), out.deltasOk)
      {
        unitNumber := unitNumber - 1;
        var s := starts[unitNumber];
        ghost var was, wasOk := out.Contents(), out.deltasOk;
        ListedValue(e, u, bounds, isFinal, jumpTargets, all, unitNumber, was, wasOk);
        var value := if isFinal[unitNumber] then e[s].value else offset - jumpTargets[unitNumber];
        offset := out.WriteValueAndFinal(value, isFinal[unitNumber]);
        ghost var tail := out.Contents();
        offset := out.Write(ElementUnit(s, u));
        kids := ListKid(e, u, bounds, isFinal, jumpTargets, all, unitNumber, value, kids, was, wasOk, out.deltasOk,
                        tail, out.Contents());
        EndsWithTwice(out.Contents(), was, c0);
      }
      assert bounds[0..] == bounds;
    }

    /** Writes the node of the last byte of a list without a jump, and that byte in front of it. */
    method WriteLastKid(last: nat, ghost start: nat, limit: nat, u: nat, ghost bounds: seq<nat>)
      returns (offset: nat, ghost kids: seq<Kid>)
      requires out.Valid() && Elements(e) && Group(e, start, limit, u) && |bounds| > 2 && last == bounds[|bounds| - 2]
      requires Partition(e, bounds, u) && bounds[0] == start && bounds[|bounds| - 1] == limit
      modifies out, out.bytes
      ensures Grown() && offset == out.bytesLength && KidsOf(e, bounds[|bounds| - 2..], u, kids)
      ensures out.deltasOk ==> BranchAt(out.Contents(), 0, kids)
      decreases limit - start, |e[limit - 1].key| - u, 0
    {
      hide Buffer.Contents, Elements, Group, NodeAt, NodeOf, EndsWith, Partition, KidsOf, BranchAt;
      ghost var c0 := out.Contents();
      LastRun(e, start, limit, u, bounds);
      ghost var n;
      offset, n := WriteNode(last, limit, u + 1);
      ghost var node := out.Contents();
      offset := out.Write(ElementUnit(last, u));
      kids := LastKid(e, bounds, u, n, out.deltasOk, node, out.Contents());
      EndsWithTwice(out.Contents(), node, c0);
    }

    /** Where the runs start, and which of them, except for the last one, are a single string which ends. */
    method FindStarts(start: nat, limit: nat, u: nat, length: nat, ghost bounds: seq<nat>)
      returns (starts: seq<nat>, isFinal: seq<bool>)
      requires Elements(e) && 2 <= length <= kMaxBranchLinearSubNodeLength
      requires |bounds| == length + 1 && Partition(e, bounds, u) && bounds[0] == start && bounds[length] == limit
      ensures starts == bounds[..length] && |isFinal| == length - 1
      ensures forall k :: 0 <= k < length - 1 ==> isFinal[k] == EndsAlone(e, bounds[k], bounds[k + 1], u)
    {
      starts, isFinal := [], [];
      var unitNumber, from := 0, start;
      while unitNumber < length - 1
        invariant unitNumber <= length - 1 && from == bounds[unitNumber] && starts == bounds[..unitNumber]
        invariant |isFinal| == unitNumber
        invariant forall k :: 0 <= k < unitNumber ==> isFinal[k] == EndsAlone(e, bounds[k], bounds[k + 1], u)
      {
        assert UnitRun(e, bounds[unitNumber], bounds[unitNumber + 1], u);
        starts := starts + [from];
        var i := IndexOfElementWithNextUnit(from + 1, u, e[from].key[u], from, bounds[unitNumber + 1]);
        isFinal := isFinal + [from == i - 1 && u + 1 == |e[from].key|];
        from := i;
        unitNumber := unitNumber + 1;
      }
      starts := starts + [from];
    }

    /** Writes the nodes which the list will jump to, the last one first. */
    method WriteSubNodes(start: nat, limit: nat, u: nat, length: nat, ghost bounds: seq<nat>,
                         starts: seq<nat>, isFinal: seq<bool>)
      returns (jumpTargets: seq<nat>, ghost all: seq<Kid>)
      requires out.Valid() && Elements(e) && Group(e, start, limit, u) && 2 <= length <= kMaxBranchLinearSubNodeLength
      requires |bounds| == length + 1 && Partition(e, bounds, u) && bounds[0] == start && bounds[length] == limit
      requires starts == bounds[..length] && |isFinal| == length - 1
      requires forall k :: 0 <= k < length - 1 ==> isFinal[k] == EndsAlone(e, bounds[k], bounds[k + 1], u)
      modifies out, out.bytes
      ensures Grown() && |jumpTargets| == |all| == length - 1
      ensures Listed(e, u, bounds, isFinal, jumpTargets, all, 0, length - 1, out.Contents(), out.deltasOk)
      decreases limit - start, |e[limit - 1].key| - u, 0
    {
      hide DeltaBytes, ValueBytes, Buffer.Contents, Elements, Group, NodeAt, NodeOf, HeadedNodeAt, EndsWith, Partition, KidOf, EndsAlone;
      ghost var c0 := out.Contents();
      EndsWithSelf(c0);
      jumpTargets := seq(length - 1, _ => 0);
      all := seq(length - 1, _ => Kid(0, Final(0)));
      var unitNumber := length - 1;
      while unitNumber > 0
        invariant unitNumber < length && |jumpTargets| == |all| == length - 1
        invariant Grown() && EndsWith(out.Contents(), c0)
        invariant Listed(e, u, bounds, isFinal, jumpTargets, all, unitNumber, length - 1, out.Contents(), out.deltasOk)
      {
        unitNumber := unitNumber - 1;
        var from, to := starts[unitNumber], starts[unitNumber + 1];
        RunOf(e, start, limit, u, bounds, unitNumber);
        ghost var d, wasOk, n := out.Contents(), out.deltasOk, Final(e[from].value);
        if !isFinal[unitNumber] {
          var offset;
          offset, n := WriteNode(from, to, u + 1);
          jumpTargets := jumpTargets[unitNumber := offset];
        } else {
          EndsWithSelf(d);
        }
        ghost var kid := OneListed(e, u, from, to, isFinal[unitNumber], jumpTargets[unitNumber], n, out.Contents(), out.deltasOk);
        all := all[unitNumber := kid];
        EndsWithTwice(out.Contents(), d, c0);
        ListedKept(e, u, bounds, isFinal, jumpTargets, all, unitNumber + 1, length - 1, d, wasOk,
                   out.Contents(), out.deltasOk);
      }
    }

    function ElementUnit(i: nat, u: nat): (b: Byte)
      requires Elements(e) && i < |e| && u < |e[i].key|
      ensures b == e[i].key[u]
    {
      e[i].key[u]
    }
  }

  /** The node of a single string which ends here. */
  lemma FinalNode(e: seq<Pair>, start: nat, u: nat, d: seq<Byte>, c: seq<Byte>) returns (n: Node)
    requires Elements(e) && Group(e, start, start + 1, u) && |e[start].key| == u
    requires c == ValueBytes(e[start].value, true) + d
    ensures NodeOf(e, start, start + 1, u, n) && NodeAt(c, 0, n) && EndsWith(c, d)
  {
    n := Final(e[start].value);
    hide ValueBytes, EndsWith;
    FinalWritten(d, e[start].value, c);
    AssembleTail(ValueBytes(e[start].value, true), d, c);
    assert e[start].key[u..] == [];
  }

  /** Without a string which ends here, the others are a group of longer ones. */
  lemma LongerPart(e: seq<Pair>, start: nat, limit: nat, u: nat, first: nat)
    requires Elements(e) && Group(e, start, limit, u)
    requires first == if |e[start].key| == u then start + 1 else start
    requires first < limit
    ensures Group(e, first, limit, u) && |e[first].key| > u && |e[limit - 1].key| > u
  {
    GroupLonger(e, start, limit, u);
  }

  /** A node without a value, and possibly the value of the string which ends in front of it. */
  lemma ValueAndType(e: seq<Pair>, start: nat, limit: nat, u: nat, first: nat, kind: Byte, m: Node, ok: bool,
                     d: seq<Byte>, c: seq<Byte>) returns (n: Node)
    requires Elements(e) && Group(e, start, limit, u)
    requires first == if |e[start].key| == u then start + 1 else start
    requires first < limit && Group(e, first, limit, u)
    requires c == (if start < first then ValueBytes(e[start].value, false) else []) + ([kind] + d)
    requires !m.IsValue() && NodeOf(e, first, limit, u, m) && (ok ==> HeadedNodeAt(kind, d, m))
    ensures NodeOf(e, start, limit, u, n) && (ok ==> NodeAt(c, 0, n)) && EndsWith(c, d)
  {
    var tail := [kind] + d;
    hide NodeAt, ValueBytes, Elements;
    if start < first {
      var value := e[start].value;
      n := Intermediate(value, m);
      IsElementValue(e, start);
      AssembleTail(ValueBytes(value, false), tail, c);
      EndsWithTwice(c, tail, d);
      if ok {
        IntermediateWritten(tail, value, m, c);
      }
      assert e[start].key[u..] == [];
      assert Suffixes(e, start, limit, u) == [Pair([], value)] + Suffixes(e, first, limit, u);
    } else {
      n := m;
      assert c == tail;
    }
  }

  lemma IsElementValue(e: seq<Pair>, i: nat)
    requires Elements(e) && i < |e|
    ensures IsInt32(e[i].value)
  {
  }

  lemma EndsWithTail(tail: seq<Byte>, d: seq<Byte>, c: seq<Byte>)
    requires c == tail + d
    ensures EndsWith(c, d)
  {
  }

  lemma LongEnough(e: seq<Pair>, start: nat, limit: nat, u: nat)
    requires Group(e, start, limit, u)
    ensures start < limit <= |e| && u <= |e[start].key| && u <= |e[limit - 1].key|
  {
  }

  lemma GroupShorter(e: seq<Pair>, start: nat, limit: nat, u: nat, v: nat)
    requires Group(e, start, limit, v) && u <= v
    ensures Group(e, start, limit, u)
  {
    forall i | start <= i < limit
      ensures e[i].key[..u] == e[start].key[..u]
    {
      assert e[i].key[..u] == e[i].key[..v][..u];
      assert e[start].key[..u] == e[start].key[..v][..u];
    }
  }

  /** A linear-match node for the common bytes u..v-1, in front of the node next. */
  lemma LinearChunk(e: seq<Pair>, start: nat, limit: nat, u: nat, v: nat, bytes: seq<Byte>, next: Node, ok: bool,
                    d: seq<Byte>, c: seq<Byte>) returns (m: Node)
    requires Elements(e) && Group(e, start, limit, v) && u < v <= u + kMaxLinearMatchLength
    requires NodeOf(e, start, limit, v, next) && (ok ==> NodeAt(d, 0, next))
    requires bytes == e[start].key[u..v] && c == bytes + d
    ensures Group(e, start, limit, u)
    ensures !m.IsValue() && NodeOf(e, start, limit, u, m)
    ensures (ok ==> HeadedNodeAt(kMinLinearMatch + (v - u) - 1, c, m)) && EndsWith(c, d)
  {
    assert |bytes| == v - u;
    hide NodeAt, Group;
    m := Linear(bytes, next);
    GroupShorter(e, start, limit, u, v);
    LongEnough(e, start, limit, u);
    SuffixesPrepend(e, start, limit, u, v);
    if ok {
      LinearWritten(d, bytes, next, [kMinLinearMatch + |bytes| - 1] + c);
    }
  }

  function ElementBytes(e: seq<Pair>, i: nat, u: nat, v: nat): (r: seq<Byte>)
    requires Elements(e) && i < |e| && u <= v <= |e[i].key|
    ensures r == e[i].key[u..v]
  {
    e[i].key[u..v]
  }

  ghost predicate FewSplits(levels: nat, length: nat) {
    levels <= 6 && length <= [0x100, 0x80, 0x40, 0x20, 0x10, 8, 4][levels]
  }

  /** There are at most 0x100 different bytes, and at least 2 if the first and the last one differ. */
  lemma {:induction false} BoundedUnits(e: seq<Pair>, bounds: seq<nat>, u: nat, k: nat)
    requires Elements(e) && Partition(e, bounds, u) && k < |bounds| - 1
    ensures bounds[k] < |e| && |e[bounds[k]].key| > u && k <= e[bounds[k]].key[u] < 0x100
  {
    assert UnitRun(e, bounds[k], bounds[k + 1], u);
    if k > 0 {
      BoundedUnits(e, bounds, u, k - 1);
    }
  }

  lemma BranchLength(e: seq<Pair>, bounds: seq<nat>, u: nat)
    requires Elements(e) && Partition(e, bounds, u) && bounds[0] < bounds[|bounds| - 1]
    requires |e[bounds[0]].key| > u && |e[bounds[|bounds| - 1] - 1].key| > u
    requires e[bounds[0]].key[u] != e[bounds[|bounds| - 1] - 1].key[u]
    ensures 2 <= |bounds| - 1 <= 0x100
  {
    BoundedUnits(e, bounds, u, |bounds| - 2);
    assert UnitRun(e, bounds[0], bounds[1], u);
  }

  /** The branch node for all runs. */
  lemma BranchNode(e: seq<Pair>, bounds: seq<nat>, u: nat, kids: seq<Kid>, ok: bool,
                   d: seq<Byte>, tail: seq<Byte>, kind: Byte) returns (m: Node)
    requires Partition(e, bounds, u) && KidsOf(e, bounds, u, kids) && 2 <= |bounds| - 1 <= 0x100
    requires ok ==> BranchAt(d, 0, kids)
    requires if |bounds| - 2 < kMinLinearMatch then kind == |bounds| - 2 && tail == d
             else kind == 0 && tail == [|bounds| - 2] + d
    ensures bounds[0] <= bounds[|bounds| - 1] <= |e|
    ensures forall i :: bounds[0] <= i < bounds[|bounds| - 1] ==> |e[i].key| > u
    ensures !m.IsValue() && NodeOf(e, bounds[0], bounds[|bounds| - 1], u, m)
    ensures (ok ==> HeadedNodeAt(kind, tail, m)) && EndsWith(tail, d)
  {
    hide BranchAt, NodeAt;
    m := Branch(kids);
    PartitionPart(e, bounds, u, 0, |bounds| - 1);
    KidsPairs(e, bounds, u, kids);
    KidsIncrease(e, bounds, u, kids);
    if ok {
      BranchWritten(d, kids, [kind] + tail);
    }
  }

  lemma EndsWithSelf(c: seq<Byte>)
    ensures EndsWith(c, c)
  {
  }

  /** A split of the runs in bounds: the kids of the first half are written already. */
  datatype Split = Split(bounds: seq<nat>, left: seq<Kid>, lessThan: nat, middle: Byte)

  ghost predicate SplitOk(e: seq<Pair>, u: nat, s: Split, rest: seq<nat>, c: seq<Byte>, ok: bool) {
    var half := (|s.bounds| - 1) / 2;
    && half > 0 && SplitReady(e, u, s, half) && rest == s.bounds[half..]
    && s.lessThan <= |c| && (ok ==> BranchEnd(c, s.lessThan, s.left))
  }

  /** The kids of the first half, and the byte where the second half starts. */
  ghost predicate SplitReady(e: seq<Pair>, u: nat, s: Split, half: nat) {
    && |s.bounds| - 1 > kMaxBranchLinearSubNodeLength && half == (|s.bounds| - 1) / 2
    && Partition(e, s.bounds, u) && KidsOf(e, s.bounds[..half + 1], u, s.left)
    && s.bounds[half] < |e| && |e[s.bounds[half]].key| > u && s.middle == e[s.bounds[half]].key[u]
  }

  /** The stacks of the middle bytes and of the targets of the jumps to the lower halves. */
  ghost predicate Written(splits: seq<Split>, middleUnits: seq<Byte>, lessThan: seq<nat>) {
    && |splits| == |middleUnits| == |lessThan|
    && forall j :: 0 <= j < |splits| ==> middleUnits[j] == splits[j].middle && lessThan[j] == splits[j].lessThan
  }

  /** The length parts between bounds start and end there. */
  ghost predicate Covers(bounds: seq<nat>, start: nat, limit: nat, length: nat) {
    |bounds| == length + 1 && bounds[0] == start && bounds[length] == limit
  }

  /** The open splits of the runs in whole, when the runs in rest are not written yet. */
  ghost predicate SplitsOk(e: seq<Pair>, u: nat, splits: seq<Split>, whole: seq<nat>, rest: seq<nat>,
                           c: seq<Byte>, ok: bool) {
    if splits == [] then rest == whole
    else
      var last := splits[|splits| - 1];
      && SplitOk(e, u, last, rest, c, ok)
      && SplitsOk(e, u, splits[..|splits| - 1], whole, last.bounds, c, ok)
  }

  lemma SplitsOkInit(e: seq<Pair>, u: nat, whole: seq<nat>, c: seq<Byte>, ok: bool)
    ensures SplitsOk(e, u, [], whole, whole, c, ok)
  {
  }

  lemma SplitsDone(e: seq<Pair>, u: nat, whole: seq<nat>, rest: seq<nat>, c: seq<Byte>, ok: bool)
    requires SplitsOk(e, u, [], whole, rest, c, ok)
    ensures rest == whole
  {
  }

  lemma {:induction false} SplitsKept(e: seq<Pair>, u: nat, splits: seq<Split>, whole: seq<nat>, rest: seq<nat>,
                                      d: seq<Byte>, wasOk: bool, c: seq<Byte>, ok: bool)
    requires EndsWith(c, d) && SplitsOk(e, u, splits, whole, rest, d, wasOk) && (ok ==> wasOk)
    ensures SplitsOk(e, u, splits, whole, rest, c, ok)
  {
    hide BranchEnd, KidsOf, Partition;
    if splits != [] {
      var last := splits[|splits| - 1];
      SplitsKept(e, u, splits[..|splits| - 1], whole, last.bounds, d, wasOk, c, ok);
      if ok {
        BranchEndKept(c, d, last.lessThan, last.left);
      }
    }
  }

  lemma SplitPushed(e: seq<Pair>, u: nat, splits: seq<Split>, whole: seq<nat>, s: Split, half: nat, c: seq<Byte>, ok: bool)
    requires SplitsOk(e, u, splits, whole, s.bounds, c, ok)
    requires SplitReady(e, u, s, half) && s.lessThan == |c| && (ok ==> BranchAt(c, 0, s.left))
    ensures SplitsOk(e, u, splits + [s], whole, s.bounds[half..], c, ok)
  {
    hide BranchAt, KidsOf, Partition;
    assert (splits + [s])[..|splits|] == splits;
    assert SplitOk(e, u, s, s.bounds[half..], c, ok);
  }

  lemma SplitTarget(e: seq<Pair>, u: nat, splits: seq<Split>, whole: seq<nat>, rest: seq<nat>, c: seq<Byte>, ok: bool)
    requires splits != [] && SplitsOk(e, u, splits, whole, rest, c, ok)
    ensures splits[|splits| - 1].lessThan <= |c|
  {
  }

  /** After writing the delta and the middle byte of the last split. */
  lemma SplitPopped(e: seq<Pair>, u: nat, splits: seq<Split>, whole: seq<nat>, rest: seq<nat>, kids: seq<Kid>,
                    d: seq<Byte>, wasOk: bool, ok: bool, junk: seq<Byte>, c: seq<Byte>)
    requires splits != [] && SplitsOk(e, u, splits, whole, rest, d, wasOk)
    requires KidsOf(e, rest, u, kids) && (wasOk ==> BranchAt(d, 0, kids)) && |junk| == 2
    requires splits[|splits| - 1].lessThan <= |d|
    requires ok ==> wasOk && |d| - splits[|splits| - 1].lessThan <= kMaxThreeByteDelta
    requires c == [splits[|splits| - 1].middle] + (DeltaBytes(|d| - splits[|splits| - 1].lessThan, junk) + d)
    ensures var s := splits[|splits| - 1];
      && KidsOf(e, s.bounds, u, s.left + kids) && (ok ==> BranchAt(c, 0, s.left + kids))
      && SplitsOk(e, u, splits[..|splits| - 1], whole, s.bounds, c, ok) && EndsWith(c, d)
  {
    hide BranchAt, BranchEnd, KidsOf, Partition, DeltaBytes;
    var s := splits[|splits| - 1];
    var half := (|s.bounds| - 1) / 2;
    Assemble(s.middle, DeltaBytes(|d| - s.lessThan, junk), d, c);
    SplitsKept(e, u, splits[..|splits| - 1], whole, s.bounds, d, wasOk, c, ok);
    KidsJoin(e, s.bounds, u, half, s.left, kids);
    MiddleUnit(e, s.bounds, u, half, s.left, kids);
    if ok {
      SplitWritten(d, s.middle, s.lessThan, junk, s.left, kids, c);
    }
  }

  lemma MiddleUnit(e: seq<Pair>, bounds: seq<nat>, u: nat, half: nat, left: seq<Kid>, right: seq<Kid>)
    requires Partition(e, bounds, u) && 0 < half < |bounds| - 1
    requires KidsOf(e, bounds[..half + 1], u, left) && KidsOf(e, bounds[half..], u, right)
    ensures |left| == half && |right| == |bounds| - 1 - half
    ensures left[half - 1].key < e[bounds[half]].key[u] <= right[0].key
  {
    assert KidOf(e, bounds[..half + 1][half - 1], bounds[..half + 1][half], u, left[half - 1]);
    assert KidOf(e, bounds[half..][0], bounds[half..][1], u, right[0]);
  }

  /** Both halves of a partition are partitions, and their elements are groups. */
  lemma HalfOfPartition(e: seq<Pair>, start: nat, limit: nat, u: nat, from: nat, bounds: seq<nat>, half: nat)
    requires Group(e, start, limit, u) && start <= from < limit && Partition(e, bounds, u)
    requires bounds[0] == from && bounds[|bounds| - 1] == limit && 0 < half < |bounds| - 1
    ensures Partition(e, bounds[..half + 1], u) && Partition(e, bounds[half..], u)
    ensures from < bounds[half] < limit && |e[bounds[half]].key| > u
    ensures Group(e, from, bounds[half], u) && Group(e, bounds[half], limit, u)
  {
    PartitionPart(e, bounds, u, 0, half);
    PartitionPart(e, bounds, u, half, |bounds| - 1);
    assert bounds[0..half + 1] == bounds[..half + 1];
    assert bounds[half..|bounds| - 1 + 1] == bounds[half..];
    assert UnitRun(e, bounds[half], bounds[half + 1], u);
    SubGroup(e, start, limit, u, from, bounds[half]);
    SubGroup(e, start, limit, u, bounds[half], limit);
  }

  lemma SubGroup(e: seq<Pair>, start: nat, limit: nat, u: nat, from: nat, to: nat)
    requires Group(e, start, limit, u) && start <= from < to <= limit
    ensures Group(e, from, to, u)
  {
    assert e[from].key[..u] == e[start].key[..u];
  }

  /** One string which ends after the byte at u. */
  ghost predicate EndsAlone(e: seq<Pair>, from: nat, to: nat, u: nat) {
    from < |e| && from + 1 == to && u + 1 == |e[from].key|
  }

  ghost predicate ListedOk(e: seq<Pair>, u: nat, from: nat, to: nat, isFinal: bool, target: nat, kid: Kid,
                           c: seq<Byte>, ok: bool) {
    && KidOf(e, from, to, u, kid)
    && if isFinal then kid.node == Final(e[from].value) else target <= |c| && (ok ==> NodeEnd(c, target, kid.node))
  }

  /** The kids from..to-1 of a list branch: they are final values, or their nodes have been written. */
  ghost predicate Listed(e: seq<Pair>, u: nat, bounds: seq<nat>, isFinal: seq<bool>, targets: seq<nat>, all: seq<Kid>,
                         from: nat, to: nat, c: seq<Byte>, ok: bool) {
    && to <= |isFinal| && to <= |targets| && to <= |all| && to < |bounds|
    && forall k :: from <= k < to ==> ListedOk(e, u, bounds[k], bounds[k + 1], isFinal[k], targets[k], all[k], c, ok)
  }

  lemma ListedKept(e: seq<Pair>, u: nat, bounds: seq<nat>, isFinal: seq<bool>, targets: seq<nat>, all: seq<Kid>,
                   from: nat, to: nat, d: seq<Byte>, wasOk: bool, c: seq<Byte>, ok: bool)
    requires EndsWith(c, d) && Listed(e, u, bounds, isFinal, targets, all, from, to, d, wasOk) && (ok ==> wasOk)
    ensures Listed(e, u, bounds, isFinal, targets, all, from, to, c, ok)
  {
    hide KidOf, NodeEnd;
    forall k | from <= k < to
      ensures ListedOk(e, u, bounds[k], bounds[k + 1], isFinal[k], targets[k], all[k], c, ok)
    {
      assert ListedOk(e, u, bounds[k], bounds[k + 1], isFinal[k], targets[k], all[k], d, wasOk);
      if ok && !isFinal[k] {
        NodeEndKept(c, d, targets[k], all[k].node);
      }
    }
  }

  lemma RunOf(e: seq<Pair>, start: nat, limit: nat, u: nat, bounds: seq<nat>, k: nat)
    requires Group(e, start, limit, u) && Partition(e, bounds, u) && k < |bounds| - 1
    requires bounds[0] == start && bounds[|bounds| - 1] == limit
    ensures start <= bounds[k] < bounds[k + 1] <= limit
    ensures |bounds| > 2 ==> bounds[k + 1] - bounds[k] < limit - start
    ensures Group(e, bounds[k], bounds[k + 1], u + 1) && UnitRun(e, bounds[k], bounds[k + 1], u)
  {
    var n := |bounds| - 1;
    PartitionPart(e, bounds, u, k, k + 1);
    if k > 0 {
      PartitionPart(e, bounds, u, 0, k);
    }
    if k + 1 < n {
      PartitionPart(e, bounds, u, k + 1, n);
    }
    assert UnitRun(e, bounds[k], bounds[k + 1], u);
    RunGroup(e, start, limit, u, bounds[k], bounds[k + 1]);
  }

  lemma LastRun(e: seq<Pair>, start: nat, limit: nat, u: nat, bounds: seq<nat>)
    requires Group(e, start, limit, u) && Partition(e, bounds, u) && |bounds| > 2
    requires bounds[0] == start && bounds[|bounds| - 1] == limit
    ensures start < bounds[|bounds| - 2] < limit && |e[bounds[|bounds| - 2]].key| > u
    ensures Group(e, bounds[|bounds| - 2], limit, u + 1)
  {
    RunOf(e, start, limit, u, bounds, |bounds| - 2);
    PartitionPart(e, bounds, u, 0, |bounds| - 2);
  }

  lemma StartUnits(e: seq<Pair>, bounds: seq<nat>, u: nat)
    requires Partition(e, bounds, u)
    ensures forall k :: 0 <= k < |bounds| - 1 ==> bounds[k] < |e| && |e[bounds[k]].key| > u
  {
    forall k | 0 <= k < |bounds| - 1
      ensures bounds[k] < |e| && |e[bounds[k]].key| > u
    {
      assert UnitRun(e, bounds[k], bounds[k + 1], u);
    }
  }

  /** The kid of a run whose node is known. */
  lemma OneListed(e: seq<Pair>, u: nat, from: nat, to: nat, isFinal: bool, target: nat, n: Node, c: seq<Byte>, ok: bool)
    returns (kid: Kid)
    requires UnitRun(e, from, to, u) && isFinal == EndsAlone(e, from, to, u)
    requires if isFinal then n == Final(e[from].value)
             else NodeOf(e, from, to, u + 1, n) && target == |c| && (ok ==> NodeAt(c, 0, n))
    ensures ListedOk(e, u, from, to, isFinal, target, kid, c, ok)
  {
    hide NodeAt;
    kid := Kid(e[from].key[u], n);
    if isFinal {
      assert e[from].key[u + 1..] == [];
    }
  }

  lemma ListedValue(e: seq<Pair>, u: nat, bounds: seq<nat>, isFinal: seq<bool>, targets: seq<nat>, all: seq<Kid>,
                    k: nat, c: seq<Byte>, ok: bool)
    requires Elements(e) && Listed(e, u, bounds, isFinal, targets, all, 0, k + 1, c, ok)
    ensures if isFinal[k] then bounds[k] < |e| && IsInt32(e[bounds[k]].value) else targets[k] <= |c|
  {
    hide KidOf, NodeEnd;
    assert ListedOk(e, u, bounds[k], bounds[k + 1], isFinal[k], targets[k], all[k], c, ok);
    KidStart(e, bounds[k], bounds[k + 1], u, all[k]);
  }

  lemma KidStart(e: seq<Pair>, from: nat, to: nat, u: nat, kid: Kid)
    requires KidOf(e, from, to, u, kid)
    ensures from < |e|
  {
  }

  lemma LastKid(e: seq<Pair>, bounds: seq<nat>, u: nat, n: Node, ok: bool, d: seq<Byte>, c: seq<Byte>)
    returns (kids: seq<Kid>)
    requires |bounds| >= 2 && Partition(e, bounds, u) && bounds[|bounds| - 2] < bounds[|bounds| - 1]
    requires forall i :: bounds[|bounds| - 2] <= i < bounds[|bounds| - 1] ==> |e[i].key| > u
    requires NodeOf(e, bounds[|bounds| - 2], bounds[|bounds| - 1], u + 1, n)
    requires 0 <= e[bounds[|bounds| - 2]].key[u] < 0x100
    requires c == [e[bounds[|bounds| - 2]].key[u]] + d && (ok ==> NodeAt(d, 0, n))
    ensures KidsOf(e, bounds[|bounds| - 2..], u, kids) && (ok ==> BranchAt(c, 0, kids)) && EndsWith(c, d)
  {
    hide NodeAt, BranchAt;
    var k := |bounds| - 2;
    var unit: Byte := e[bounds[k]].key[u];
    kids := [Kid(unit, n)];
    assert UnitRun(e, bounds[k], bounds[k + 1], u);
    assert KidOf(e, bounds[k], bounds[k + 1], u, kids[0]);
    if ok {
      LastKidWritten(d, unit, n, c);
    }
  }

  /** The kid k with its value or jump, in front of the later kids. */
  lemma ListKid(e: seq<Pair>, u: nat, bounds: seq<nat>, isFinal: seq<bool>, targets: seq<nat>, all: seq<Kid>, k: nat,
                value: int, kids: seq<Kid>, d: seq<Byte>, wasOk: bool, ok: bool, tail: seq<Byte>, c: seq<Byte>)
    returns (r: seq<Kid>)
    requires Elements(e) && Listed(e, u, bounds, isFinal, targets, all, 0, k + 1, d, wasOk)
    requires |bounds| - 1 <= kMaxBranchLinearSubNodeLength && k + 1 < |bounds| - 1 && KidsOf(e, bounds[k + 1..], u, kids)
    requires (wasOk ==> BranchAt(d, 0, kids)) && (ok ==> wasOk && IsInt32(value))
    requires bounds[k] < |e| && value == if isFinal[k] then e[bounds[k]].value else |d| - targets[k]
    requires |e[bounds[k]].key| > u
    requires tail == ValueBytes(value, isFinal[k]) + d && c == [e[bounds[k]].key[u]] + tail
    ensures KidsOf(e, bounds[k..], u, r) && (ok ==> BranchAt(c, 0, r)) && EndsWith(c, d)
    ensures Listed(e, u, bounds, isFinal, targets, all, 0, k, c, ok)
  {
    hide NodeAt, BranchAt, ValueBytes, KidOf, EndsWith;
    var unit: Byte := e[bounds[k]].key[u];
    assert ListedOk(e, u, bounds[k], bounds[k + 1], isFinal[k], targets[k], all[k], d, wasOk);
    KidKey(e, bounds[k], bounds[k + 1], u, all[k]);
    r := [Kid(unit, all[k].node)] + kids;
    Assemble(unit, ValueBytes(value, isFinal[k]), d, c);
    if ok {
      ListedKidWritten(d, unit, value, isFinal[k], all[k].node, kids, c);
    }
    ListedEarlier(e, u, bounds, isFinal, targets, all, k, d, wasOk);
    ListedKept(e, u, bounds, isFinal, targets, all, 0, k, d, wasOk, c, ok);
    forall j | 0 <= j < |r|
      ensures KidOf(e, bounds[k..][j], bounds[k..][j + 1], u, r[j])
    {
      if j > 0 {
        assert KidOf(e, bounds[k + 1..][j - 1], bounds[k + 1..][j], u, kids[j - 1]);
      }
    }
  }

  lemma KidKey(e: seq<Pair>, from: nat, to: nat, u: nat, kid: Kid)
    requires KidOf(e, from, to, u, kid)
    ensures from < |e| && |e[from].key| > u && kid == Kid(e[from].key[u], kid.node)
  {
  }

  lemma ListedEarlier(e: seq<Pair>, u: nat, bounds: seq<nat>, isFinal: seq<bool>, targets: seq<nat>, all: seq<Kid>,
                      k: nat, c: seq<Byte>, ok: bool)
    requires Listed(e, u, bounds, isFinal, targets, all, 0, k + 1, c, ok)
    ensures Listed(e, u, bounds, isFinal, targets, all, 0, k, c, ok)
  {
    hide ListedOk;
  }

  /** The node stands for the elements start..limit-1 without their first u bytes. */
  ghost predicate NodeOf(e: seq<Pair>, start: nat, limit: nat, u: nat, n: Node) {
    && start < limit <= |e| && (forall i :: start <= i < limit ==> |e[i].key| >= u)
    && Pairs(n) == Suffixes(e, start, limit, u)
  }

  /** The node is serialized as the byte kind and then c. */
  ghost predicate HeadedNodeAt(kind: Byte, c: seq<Byte>, n: Node) {
    NodeAt([kind] + c, 0, n)
  }

  lemma AddRun(e: seq<Pair>, bounds: seq<nat>, u: nat, limit: nat)
    requires bounds != [] && UnitRun(e, bounds[|bounds| - 1], limit, u)
    requires |bounds| > 1 ==> Partition(e, bounds, u)
    requires |bounds| > 1 ==> bounds[|bounds| - 2] < |e| && |e[bounds[|bounds| - 2]].key| > u
    requires |bounds| > 1 ==> e[bounds[|bounds| - 2]].key[u] < e[bounds[|bounds| - 1]].key[u]
    ensures Partition(e, bounds + [limit], u)
  {
    var n := |bounds| - 1;
    var b := bounds + [limit];
    forall k | 0 <= k < n + 1
      ensures UnitRun(e, b[k], b[k + 1], u)
    {
      if k < n {
        assert UnitRun(e, bounds[k], bounds[k + 1], u);
      }
    }
  }
}
