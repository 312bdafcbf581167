/** The sorted strings of a trie builder: common prefixes, and groups by the next byte. */
module TrieElements {
  import opened Trie
  import opened TrieCodec

  /** Sorted byte strings without duplicates, with 32-bit values. */
  ghost predicate Elements(e: seq<Pair>) {
    && Sorted(e)
    && forall i :: 0 <= i < |e| ==> IsInt32(e[i].value) && forall k :: 0 <= k < |e[i].key| ==> 0 <= e[i].key[k] < 0x100
  }

  /** The elements start..limit-1 share their first u bytes. */
  ghost predicate Group(e: seq<Pair>, start: nat, limit: nat, u: nat) {
    && start < limit <= |e| && |e[start].key| >= u
    && forall i :: start <= i < limit ==> |e[i].key| >= u && e[i].key[..u] == e[start].key[..u]
  }

  /** The elements start..limit-1 without their first u bytes. */
  function Suffixes(e: seq<Pair>, start: nat, limit: nat, u: nat): (r: seq<Pair>)
    requires start <= limit <= |e|
    requires forall i :: start <= i < limit ==> |e[i].key| >= u
    ensures |r| == limit - start
    ensures forall i :: 0 <= i < |r| ==> r[i] == Pair(e[start + i].key[u..], e[start + i].value)
  {
    seq(limit - start, i requires 0 <= i < limit - start => Pair(e[start + i].key[u..], e[start + i].value))
  }

  lemma {:induction false} LessSuffix(a: seq<int>, b: seq<int>, u: nat)
    requires u <= |a| && u <= |b| && a[..u] == b[..u] && Less(a, b)
    ensures |b| > u && (|a| > u ==> a[u] <= b[u])
  {
    if u > 0 {
      assert a[0] == a[..u][0] && b[0] == b[..u][0];
      assert a[1..][..u - 1] == a[..u][1..] && b[1..][..u - 1] == b[..u][1..];
      LessSuffix(a[1..], b[1..], u - 1);
    }
  }

  /** In a group, only the first string can end after the common prefix. */
  lemma GroupLonger(e: seq<Pair>, start: nat, limit: nat, u: nat)
    requires Elements(e) && Group(e, start, limit, u)
    ensures forall i :: start < i < limit ==> |e[i].key| > u
    ensures forall i, j :: start <= i < j < limit && |e[i].key| > u ==> e[i].key[u] <= e[j].key[u]
  {
    forall i, j | start <= i < j < limit
      ensures |e[j].key| > u && (|e[i].key| > u ==> e[i].key[u] <= e[j].key[u])
    {
      LessSuffix(e[i].key, e[j].key, u);
    }
  }

  /** If the first and last next byte are the same, then all are. */
  lemma GroupSame(e: seq<Pair>, start: nat, limit: nat, u: nat)
    requires Elements(e) && Group(e, start, limit, u) && |e[start].key| > u && |e[limit - 1].key| > u
    requires e[start].key[u] == e[limit - 1].key[u]
    ensures Group(e, start, limit, u + 1)
  {
    GroupLonger(e, start, limit, u);
    forall i | start <= i < limit
      ensures |e[i].key| >= u + 1 && e[i].key[..u + 1] == e[start].key[..u + 1]
    {
      assert e[i].key[u] == e[start].key[u];
      assert e[i].key[..u + 1] == e[i].key[..u] + [e[i].key[u]];
      assert e[start].key[..u + 1] == e[start].key[..u] + [e[start].key[u]];
    }
  }

  /** A group without a longer prefix, put together from that prefix and the shorter suffixes. */
  lemma SuffixesPrepend(e: seq<Pair>, start: nat, limit: nat, u: nat, v: nat)
    requires Group(e, start, limit, v) && u <= v
    ensures forall i :: start <= i < limit ==> |e[i].key| >= u
    ensures Suffixes(e, start, limit, u) == Prepend(e[start].key[u..v], Suffixes(e, start, limit, v))
  {
    var p := Prepend(e[start].key[u..v], Suffixes(e, start, limit, v));
    forall i | 0 <= i < limit - start
      ensures Suffixes(e, start, limit, u)[i] == p[i]
    {
      var a, b := e[start + i].key, e[start].key;
      assert a[u..] == a[u..v] + a[v..];
      assert a[u..v] == a[..v][u..] == b[..v][u..] == b[u..v];
    }
  }

  /** bounds[0], bounds[1], .. are where the byte number u changes, up to a limit. */
  ghost predicate Partition(e: seq<Pair>, bounds: seq<nat>, u: nat) {
    && |bounds| >= 2 && bounds[|bounds| - 1] <= |e|
    && (forall k :: 0 <= k < |bounds| - 1 ==> UnitRun(e, bounds[k], bounds[k + 1], u))
    && forall k, l :: 0 <= k < l < |bounds| - 1 ==>
         bounds[k] < bounds[l] < |e| && |e[bounds[k]].key| > u && |e[bounds[l]].key| > u
         && e[bounds[k]].key[u] < e[bounds[l]].key[u]
  }

  /** All of start..limit-1 have the same byte number u. */
  ghost predicate UnitRun(e: seq<Pair>, start: nat, limit: nat, u: nat) {
    && start < limit <= |e| && |e[start].key| > u
    && forall i :: start <= i < limit ==> |e[i].key| > u && e[i].key[u] == e[start].key[u]
  }

  lemma PartitionPart(e: seq<Pair>, bounds: seq<nat>, u: nat, from: nat, to: nat)
    requires Partition(e, bounds, u) && from < to < |bounds|
    ensures Partition(e, bounds[from..to + 1], u)
    ensures bounds[from] < bounds[to] <= |e|
  {
    var b := bounds[from..to + 1];
    assert UnitRun(e, bounds[to - 1], bounds[to], u);
    forall k | 0 <= k < |b| - 1
      ensures UnitRun(e, b[k], b[k + 1], u)
    {
      assert UnitRun(e, bounds[from + k], bounds[from + k + 1], u);
    }
  }

  /** The elements of one run are a group with one more common byte. */
  lemma RunGroup(e: seq<Pair>, start: nat, limit: nat, u: nat, from: nat, to: nat)
    requires Group(e, start, limit, u) && start <= from < to <= limit && UnitRun(e, from, to, u)
    ensures Group(e, from, to, u + 1)
  {
    forall i | from <= i < to
      ensures e[i].key[..u + 1] == e[from].key[..u + 1]
    {
      assert e[i].key[..u + 1] == e[i].key[..u] + [e[i].key[u]];
      assert e[from].key[..u + 1] == e[from].key[..u] + [e[from].key[u]];
    }
  }

  /** kids[k] stands for the elements bounds[k]..bounds[k+1]-1. */
  ghost predicate KidOf(e: seq<Pair>, from: nat, to: nat, u: nat, kid: Kid) {
    && UnitRun(e, from, to, u)
    && kid.key == e[from].key[u]
    && Pairs(kid.node) == Suffixes(e, from, to, u + 1)
  }

  ghost predicate KidsOf(e: seq<Pair>, bounds: seq<nat>, u: nat, kids: seq<Kid>) {
    && |bounds| == |kids| + 1
    && forall k :: 0 <= k < |kids| ==> KidOf(e, bounds[k], bounds[k + 1], u, kids[k])
  }

  lemma KidsIncrease(e: seq<Pair>, bounds: seq<nat>, u: nat, kids: seq<Kid>)
    requires Partition(e, bounds, u) && KidsOf(e, bounds, u, kids)
    ensures Increasing(kids)
  {
    forall i, j | 0 <= i < j < |kids|
      ensures kids[i].key < kids[j].key
    {
      assert KidOf(e, bounds[i], bounds[i + 1], u, kids[i]) && KidOf(e, bounds[j], bounds[j + 1], u, kids[j]);
    }
  }

  lemma KidsJoin(e: seq<Pair>, bounds: seq<nat>, u: nat, i: nat, left: seq<Kid>, right: seq<Kid>)
    requires 0 < i < |bounds|
    requires KidsOf(e, bounds[..i + 1], u, left) && KidsOf(e, bounds[i..], u, right)
    ensures KidsOf(e, bounds, u, left + right)
  {
    forall k | 0 <= k < |left| + |right|
      ensures KidOf(e, bounds[k], bounds[k + 1], u, (left + right)[k])
    {
      if k < i {
        assert KidOf(e, bounds[..i + 1][k], bounds[..i + 1][k + 1], u, left[k]);
      } else {
        assert KidOf(e, bounds[i..][k - i], bounds[i..][k - i + 1], u, right[k - i]);
      }
    }
  }

  lemma OneKidOf(e: seq<Pair>, from: nat, to: nat, u: nat, kid: Kid)
    requires KidOf(e, from, to, u, kid)
    ensures OneKidPairs(kid) == Suffixes(e, from, to, u)
  {
    forall i | 0 <= i < to - from
      ensures OneKidPairs(kid)[i] == Suffixes(e, from, to, u)[i]
    {
      assert e[from + i].key[u..] == [e[from + i].key[u]] + e[from + i].key[u + 1..];
    }
  }

  /** The pairs of all kids are the elements of all runs. */
  lemma {:induction false} KidsPairs(e: seq<Pair>, bounds: seq<nat>, u: nat, kids: seq<Kid>)
    requires Partition(e, bounds, u) && KidsOf(e, bounds, u, kids)
    ensures bounds[0] <= bounds[|bounds| - 1] <= |e|
    ensures forall i :: bounds[0] <= i < bounds[|bounds| - 1] ==> |e[i].key| > u
    ensures KidPairs(kids) == Suffixes(e, bounds[0], bounds[|bounds| - 1], u)
    decreases |kids|
  {
    var n := |bounds| - 1;
    assert KidOf(e, bounds[0], bounds[1], u, kids[0]);
    OneKidOf(e, bounds[0], bounds[1], u, kids[0]);
    if n == 1 {
      assert kids[1..] == [];
    } else {
      PartitionPart(e, bounds, u, 1, n);
      assert bounds[1..n + 1] == bounds[1..];
      forall k | 0 <= k < |kids| - 1
        ensures KidOf(e, bounds[1..][k], bounds[1..][k + 1], u, kids[1..][k])
      {
        assert KidOf(e, bounds[k + 1], bounds[k + 2], u, kids[k + 1]);
      }
      KidsPairs(e, bounds[1..], u, kids[1..]);
    }
  }
}
