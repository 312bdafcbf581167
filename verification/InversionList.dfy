/**
 Inversion lists: a strictly increasing list of code points, ending in 0x110000,
 whose entries alternately start and end the ranges of a set.
 */
module InversionList {

  const HIGH := 0x11_0000

  ghost predicate IsInversionList(list: seq<int>) {
    && |list| > 0
    && list[|list| - 1] == HIGH
    && 0 <= list[0]
    && forall i, j :: 0 <= i < j < |list| ==> list[i] < list[j]
  }

  /** The k-th range of the set, list[2k] up to list[2k+1] or to the end. */
  ghost predicate InRange(list: seq<int>, k: nat, c: int) {
    && 2 * k < |list|
    && list[2 * k] <= c
    && (2 * k + 1 < |list| ==> c < list[2 * k + 1])
  }

  /** Membership in the set which the list describes. */
  ghost predicate In(list: seq<int>, c: int) {
    exists k: nat :: InRange(list, k, c)
  }

  /** i is the index which a search for c in list[lo..hi] returns. */
  ghost predicate IsIndex(list: seq<int>, c: int, i: int) {
    && 0 <= i < |list|
    && c < list[i]
    && (i > 0 ==> list[i - 1] <= c)
  }

  /** The parity of the search index decides membership. */
  lemma IndexParity(list: seq<int>, c: int, i: int)
    requires IsInversionList(list)
    requires IsIndex(list, c, i)
    ensures In(list, c) <==> i % 2 == 1
  {
    if i % 2 == 1 {
      assert InRange(list, i / 2, c);
    } else {
      forall k: nat
        ensures !InRange(list, k, c)
      {
        assert 2 * k + 1 < i || 2 * k >= i;
      }
    }
  }

  /** Every code point has a search index. */
  lemma {:induction false} IndexExists(list: seq<int>, c: int, n: nat) returns (i: int)
    requires IsInversionList(list)
    requires n < |list| && c < list[n]
    ensures 0 <= i <= n && IsIndex(list, c, i)
  {
    if n == 0 || list[n - 1] <= c {
      i := n;
    } else {
      i := IndexExists(list, c, n - 1);
    }
  }

  /** All code points of one range have the same index. */
  lemma RangeMember(list: seq<int>, i: int, c: int)
    requires IsInversionList(list)
    requires 0 <= i < |list| && list[i] <= c < HIGH
    requires i + 1 < |list| ==> c < list[i + 1]
    ensures In(list, c) <==> i % 2 == 0
  {
    assert IsIndex(list, c, i + 1);
    IndexParity(list, c, i + 1);
  }
}
