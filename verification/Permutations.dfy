/** All rearrangements of a string, or only those which keep class-zero characters behind what precedes them. */
module Permutations {

  /** A character with its place in the source string. */
  datatype Placed = Placed(place: int, c: int)

  ghost predicate Ascending(u: seq<Placed>) {
    forall i, j :: 0 <= i < j < |u| ==> u[i].place < u[j].place
  }

  /** The characters alone. */
  function Chars(u: seq<Placed>): (r: seq<int>)
    ensures |r| == |u| && forall i :: 0 <= i < |r| ==> r[i] == u[i].c
  {
    seq(|u|, i requires 0 <= i < |u| => u[i].c)
  }

  /** Each character with its own index. */
  function Place(s: seq<int>): (u: seq<Placed>)
    ensures |u| == |s| && forall i :: 0 <= i < |u| ==> u[i] == Placed(i, s[i])
  {
    seq(|s|, i requires 0 <= i < |s| => Placed(i, s[i]))
  }

  function Without<T>(s: seq<T>, i: nat): (r: seq<T>)
    requires i < |s|
    ensures |r| == |s| - 1
    ensures forall k :: 0 <= k < i ==> r[k] == s[k]
    ensures forall k :: i <= k < |r| ==> r[k] == s[k + 1]
  {
    s[..i] + s[i + 1..]
  }

  /** Nothing that precedes a class-zero character in the source comes after it. */
  ghost predicate KeepsZeros(t: seq<Placed>, combiningClass: int -> nat) {
    forall a, b :: 0 <= a < b < |t| && combiningClass(t[a].c) == 0 ==> t[a].place < t[b].place
  }

  ghost predicate Rearranges(u: seq<Placed>, t: seq<Placed>, skipZeros: bool, combiningClass: int -> nat) {
    multiset(t) == multiset(u) && (skipZeros ==> KeepsZeros(t, combiningClass))
  }

  /** Is r a rearrangement of the characters in u? */
  ghost predicate Arranged(u: seq<Placed>, skipZeros: bool, combiningClass: int -> nat, r: seq<int>) {
    exists t :: Rearranges(u, t, skipZeros, combiningClass) && Chars(t) == r
  }

  /** Can the character number i come first? */
  predicate MayLead(u: seq<Placed>, i: nat, skipZeros: bool, combiningClass: int -> nat)
    requires i < |u|
  {
    !(skipZeros && i != 0 && combiningClass(u[i].c) == 0)
  }

  lemma WithoutSet(u: seq<Placed>, i: nat)
    requires i < |u|
    ensures multiset(u) == multiset([u[i]]) + multiset(Without(u, i))
  {
    assert u == u[..i] + [u[i]] + u[i + 1..];
  }

  lemma WithoutAscending(u: seq<Placed>, i: nat)
    requires Ascending(u) && i < |u|
    ensures Ascending(Without(u, i)) && Chars(Without(u, i)) == Without(Chars(u), i)
  {
  }

  /** Putting a character which may lead in front of a rearrangement of the others. */
  lemma LeadFirst(u: seq<Placed>, i: nat, skipZeros: bool, combiningClass: int -> nat, r: seq<int>)
    requires Ascending(u) && i < |u| && MayLead(u, i, skipZeros, combiningClass)
    requires Arranged(Without(u, i), skipZeros, combiningClass, r)
    ensures Arranged(u, skipZeros, combiningClass, [u[i].c] + r)
  {
    hide KeepsZeros, Ascending;
    var v := Without(u, i);
    var t :| Rearranges(v, t, skipZeros, combiningClass) && Chars(t) == r;
    WithoutSet(u, i);
    LeadSet(u[i], t, v);
    if skipZeros {
      LeadZeros(u, i, t, combiningClass);
    }
    assert Rearranges(u, [u[i]] + t, skipZeros, combiningClass);
    assert Chars([u[i]] + t) == [u[i].c] + r;
  }

  lemma LeadSet(x: Placed, t: seq<Placed>, v: seq<Placed>)
    requires multiset(t) == multiset(v)
    ensures multiset([x] + t) == multiset([x]) + multiset(v)
  {
  }

  lemma LeadZeros(u: seq<Placed>, i: nat, t: seq<Placed>, combiningClass: int -> nat)
    requires Ascending(u) && i < |u| && multiset(t) == multiset(Without(u, i)) && KeepsZeros(t, combiningClass)
    requires i != 0 ==> combiningClass(u[i].c) != 0
    ensures KeepsZeros([u[i]] + t, combiningClass)
  {
    var v := Without(u, i);
    forall b | 0 <= b < |t|
      ensures i == 0 ==> u[i].place < t[b].place
    {
      assert t[b] in multiset(t) && t[b] in v;
      var k :| 0 <= k < |v| && v[k] == t[b];
    }
  }

  /** Every rearrangement starts with a character which may lead, followed by a rearrangement of the others. */
  lemma FirstLeads(u: seq<Placed>, skipZeros: bool, combiningClass: int -> nat, r: seq<int>) returns (i: nat)
    requires Ascending(u) && u != [] && Arranged(u, skipZeros, combiningClass, r)
    ensures i < |u| && r != [] && r[0] == u[i].c && MayLead(u, i, skipZeros, combiningClass)
    ensures Arranged(Without(u, i), skipZeros, combiningClass, r[1..])
  {
    var t :| Rearranges(u, t, skipZeros, combiningClass) && Chars(t) == r;
    i := FirstPlace(u, t);
    RestSet(u, i, t);
    if skipZeros {
      ZeroFirst(u, i, t, combiningClass);
    }
    assert Rearranges(Without(u, i), t[1..], skipZeros, combiningClass);
    assert Chars(t[1..]) == r[1..];
  }

  lemma FirstPlace(u: seq<Placed>, t: seq<Placed>) returns (i: nat)
    requires u != [] && multiset(t) == multiset(u)
    ensures t != [] && i < |u| && u[i] == t[0]
  {
    assert |multiset(t)| == |t| && |multiset(u)| == |u|;
    assert t[0] in multiset(u);
    i :| i < |u| && u[i] == t[0];
  }

  lemma RestSet(u: seq<Placed>, i: nat, t: seq<Placed>)
    requires i < |u| && t != [] && t[0] == u[i] && multiset(t) == multiset(u)
    ensures multiset(t[1..]) == multiset(Without(u, i))
  {
    WithoutSet(u, i);
    assert t == [t[0]] + t[1..];
    var one := multiset([t[0]]);
    assert multiset(t) == one + multiset(t[1..]);
    assert multiset(t) - one == multiset(t[1..]);
    assert multiset(u) - one == multiset(Without(u, i));
  }

  /** A class-zero character comes first only if it is the first one of the source. */
  lemma ZeroFirst(u: seq<Placed>, i: nat, t: seq<Placed>, combiningClass: int -> nat)
    requires Ascending(u) && i < |u| && t != [] && t[0] == u[i] && multiset(t) == multiset(u) && KeepsZeros(t, combiningClass)
    ensures i != 0 ==> combiningClass(u[i].c) != 0
    ensures KeepsZeros(t[1..], combiningClass)
  {
    if i != 0 {
      assert u[0] in multiset(t);
      var b :| 0 <= b < |t| && t[b] == u[0];
    }
  }

  lemma ShortArranged(u: seq<Placed>, skipZeros: bool, combiningClass: int -> nat, r: seq<int>)
    requires |u| <= 1
    ensures Arranged(u, skipZeros, combiningClass, r) <==> r == Chars(u)
  {
    if r == Chars(u) {
      assert Rearranges(u, u, skipZeros, combiningClass);
    }
    if Arranged(u, skipZeros, combiningClass, r) {
      var t :| Rearranges(u, t, skipZeros, combiningClass) && Chars(t) == r;
      assert |multiset(t)| == |t| && |multiset(u)| == |u|;
      if |u| == 1 {
        assert u[0] in multiset(u);
        assert t[0] in multiset(u);
      }
    }
  }

  lemma {:induction false} ArrangedChars(u: seq<Placed>, combiningClass: int -> nat, r: seq<int>)
    requires Ascending(u) && Arranged(u, false, combiningClass, r)
    ensures multiset(r) == multiset(Chars(u))
    decreases |u|
  {
    hide Arranged, Ascending;
    if u == [] {
      ShortArranged(u, false, combiningClass, r);
    } else {
      var i := FirstLeads(u, false, combiningClass, r);
      WithoutAscending(u, i);
      ArrangedChars(Without(u, i), combiningClass, r[1..]);
      CharSet(u, i, r);
    }
  }

  lemma {:induction false} CharsArranged(u: seq<Placed>, combiningClass: int -> nat, r: seq<int>)
    requires Ascending(u) && multiset(r) == multiset(Chars(u))
    ensures Arranged(u, false, combiningClass, r)
    decreases |u|
  {
    hide Arranged, Ascending;
    if u == [] {
      assert |multiset(r)| == |r| && |multiset(Chars(u))| == |u|;
      ShortArranged(u, false, combiningClass, r);
    } else {
      var i := FirstChar(u, r);
      CharSet(u, i, r);
      WithoutAscending(u, i);
      CharsArranged(Without(u, i), combiningClass, r[1..]);
      LeadFirst(u, i, false, combiningClass, r[1..]);
      assert [r[0]] + r[1..] == r;
    }
  }

  /** Without the restriction, the rearrangements are the strings with the same characters. */
  lemma AllArranged(u: seq<Placed>, combiningClass: int -> nat, r: seq<int>)
    requires Ascending(u)
    ensures Arranged(u, false, combiningClass, r) <==> multiset(r) == multiset(Chars(u))
  {
    hide Arranged, Ascending;
    if Arranged(u, false, combiningClass, r) {
      ArrangedChars(u, combiningClass, r);
    }
    if multiset(r) == multiset(Chars(u)) {
      CharsArranged(u, combiningClass, r);
    }
  }

  lemma FirstChar(u: seq<Placed>, r: seq<int>) returns (i: nat)
    requires u != [] && multiset(r) == multiset(Chars(u))
    ensures r != [] && i < |u| && u[i].c == r[0]
  {
    assert |multiset(r)| == |r| && |multiset(Chars(u))| == |u|;
    assert r[0] in multiset(Chars(u));
    i :| i < |u| && Chars(u)[i] == r[0];
  }

  lemma CharSet(u: seq<Placed>, i: nat, r: seq<int>)
    requires i < |u| && r != [] && r[0] == u[i].c
    ensures multiset(r) == multiset(Chars(u)) <==> multiset(r[1..]) == multiset(Chars(Without(u, i)))
  {
    var s := Chars(u);
    assert Chars(Without(u, i)) == s[..i] + s[i + 1..];
    assert s == s[..i] + [s[i]] + s[i + 1..];
    assert r == [r[0]] + r[1..];
    var one := multiset([r[0]]);
    assert multiset(r) == one + multiset(r[1..]);
    assert multiset(s) == one + multiset(s[..i] + s[i + 1..]);
    if multiset(r) == multiset(s) {
      assert multiset(r) - one == multiset(r[1..]);
      assert multiset(s) - one == multiset(s[..i] + s[i + 1..]);
    }
  }

  /** Collects all rearrangements of the source. */
  method Permute(source: seq<int>, skipZeros: bool, combiningClass: int -> nat, ghost u: seq<Placed>)
    returns (result: set<seq<int>>)
    requires Ascending(u) && Chars(u) == source
    ensures forall r :: r in result <==> Arranged(u, skipZeros, combiningClass, r)
    decreases |source|
  {
    hide Arranged, Ascending;
    if |source| <= 1 {
      forall r
        ensures Arranged(u, skipZeros, combiningClass, r) <==> r == source
      {
        ShortArranged(u, skipZeros, combiningClass, r);
      }
      return {source};
    }
    result := {};
    var i := 0;
    while i < |source|
      invariant i <= |source|
      invariant forall r :: r in result <==> LedBefore(u, skipZeros, combiningClass, r, i)
    {
      var cp := source[i];
      if !(skipZeros && i != 0 && combiningClass(cp) == 0) {
        WithoutAscending(u, i);
        var subpermute := Permute(Without(source, i), skipZeros, combiningClass, Without(u, i));
        var prefixed := PrefixAll(cp, subpermute);
        MoreLeaders(u, skipZeros, combiningClass, i, result, prefixed);
        result := result + prefixed;
      } else {
        NoLeader(u, skipZeros, combiningClass, i);
      }
      i := i + 1;
    }
    forall r
      ensures LedBefore(u, skipZeros, combiningClass, r, |u|) <==> Arranged(u, skipZeros, combiningClass, r)
    {
      LedIsArranged(u, skipZeros, combiningClass, r);
    }
  }

  /** Puts one character in front of all strings of a set. */
  method PrefixAll(cp: int, strings: set<seq<int>>) returns (result: set<seq<int>>)
    ensures forall r :: r in result <==> r != [] && r[0] == cp && r[1..] in strings
  {
    result := {};
    var rest := strings;
    while rest != {}
      invariant rest <= strings
      invariant forall r :: r in result <==> r != [] && r[0] == cp && r[1..] in strings && r[1..] !in rest
      decreases |rest|
    {
      var permRes :| permRes in rest;
      var chStr := [cp] + permRes;
      assert chStr[1..] == permRes;
      assert forall r: seq<int> :: r != [] && r[0] == cp && r[1..] == permRes ==> r == chStr;
      result := result + {chStr};
      rest := rest - {permRes};
    }
  }

  /** Does r start with one of the first n characters, if it may lead, and go on with a rearrangement of the others? */
  ghost predicate LedBefore(u: seq<Placed>, skipZeros: bool, combiningClass: int -> nat, r: seq<int>, n: nat)
    requires n <= |u|
  {
    r != [] && exists i: nat :: i < n && LedBy(u, skipZeros, combiningClass, r, i)
  }

  ghost predicate LedBy(u: seq<Placed>, skipZeros: bool, combiningClass: int -> nat, r: seq<int>, i: nat)
    requires i < |u| && r != []
  {
    && MayLead(u, i, skipZeros, combiningClass) && r[0] == u[i].c
    && Arranged(Without(u, i), skipZeros, combiningClass, r[1..])
  }

  lemma MoreLeaders(u: seq<Placed>, skipZeros: bool, combiningClass: int -> nat, i: nat,
                    result: set<seq<int>>, prefixed: set<seq<int>>)
    requires i < |u| && MayLead(u, i, skipZeros, combiningClass)
    requires forall r :: r in result <==> LedBefore(u, skipZeros, combiningClass, r, i)
    requires forall r :: r in prefixed <==>
               r != [] && r[0] == u[i].c && Arranged(Without(u, i), skipZeros, combiningClass, r[1..])
    ensures forall r :: r in result + prefixed <==> LedBefore(u, skipZeros, combiningClass, r, i + 1)
  {
    hide Arranged;
    forall r
      ensures r in result + prefixed <==> LedBefore(u, skipZeros, combiningClass, r, i + 1)
    {
      if r != [] {
        assert r in prefixed <==> LedBy(u, skipZeros, combiningClass, r, i);
      }
    }
  }

  lemma NoLeader(u: seq<Placed>, skipZeros: bool, combiningClass: int -> nat, i: nat)
    requires i < |u| && !MayLead(u, i, skipZeros, combiningClass)
    ensures forall r :: LedBefore(u, skipZeros, combiningClass, r, i) <==> LedBefore(u, skipZeros, combiningClass, r, i + 1)
  {
    hide Arranged;
  }

  lemma LedIsArranged(u: seq<Placed>, skipZeros: bool, combiningClass: int -> nat, r: seq<int>)
    requires Ascending(u) && u != []
    ensures LedBefore(u, skipZeros, combiningClass, r, |u|) <==> Arranged(u, skipZeros, combiningClass, r)
  {
    hide Arranged, Ascending;
    if LedBefore(u, skipZeros, combiningClass, r, |u|) {
      var i: nat :| i < |u| && LedBy(u, skipZeros, combiningClass, r, i);
      LeadFirst(u, i, skipZeros, combiningClass, r[1..]);
      assert [r[0]] + r[1..] == r;
    }
    if Arranged(u, skipZeros, combiningClass, r) {
      var i := FirstLeads(u, skipZeros, combiningClass, r);
      assert LedBy(u, skipZeros, combiningClass, r, i);
    }
  }
}
