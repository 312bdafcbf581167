/** A pattern with the missing apostrophes parses like the original, step by step. */
module AutoQuoteSteps {
  import opened Utf16
  import opened MessageParts
  import opened MessageGrammar
  import opened MessageShape
  import opened MessageInserts
  import opened AutoQuote

  lemma {:induction false} UnclosedQuote(p: Grammar, q: Grammar, s: set<nat>, i: nat)
    requires Quotes(p, q, s) && i <= |p.msg| && p.IndexOf(u_apos, i) == |p.msg| && |p.msg| in s
    requires forall t :: i <= t < |p.msg| ==> t !in s
    ensures Before(s, i) <= |q.msg| && Mu(s, |p.msg|) == |q.msg| > 0
    ensures q.IndexOf(u_apos, Before(s, i)) == |q.msg| - 1
    decreases |p.msg| - i
  {
    InsertedAt(p.msg, s, i, |p.msg|);
    if i < |p.msg| {
      UnclosedQuote(p, q, s, i + 1);
    }
  }

  lemma FreeBefore(s: set<nat>, i: nat)
    requires i !in s
    ensures Before(s, i) == Mu(s, i)
  {
  }

  lemma FreeNext(s: set<nat>, i: nat)
    requires i + 1 !in s
    ensures Mu(s, i + 1) == Mu(s, i) + 1
  {
  }

  lemma BeforeNext(s: set<nat>, i: nat)
    ensures Before(s, i + 1) == Mu(s, i) + 1
    ensures i + 1 in s ==> Mu(s, i + 1) == Mu(s, i) + 2
  {
  }

  /** The end of a quote which is closed, or a doubled apostrophe inside it. */
  lemma SameApostrophe(p: Grammar, q: Grammar, s: set<nat>, i: nat)
    requires Quotes(p, q, s) && i <= |p.msg| && p.IndexOf(u_apos, i) < |p.msg|
    requires var k := p.IndexOf(u_apos, i); forall t :: i <= t <= k + 1 && t < |p.msg| ==> t !in s
    requires p.IndexOf(u_apos, i) + 1 < |p.msg| || |p.msg| !in s
    ensures var k := p.IndexOf(u_apos, i);
      && Before(s, i) <= |q.msg| && q.IndexOf(u_apos, Before(s, i)) == Mu(s, k) < |q.msg|
      && Mu(s, k + 1) == Mu(s, k) + 1
      && (k + 1 < |p.msg| <==> Mu(s, k) + 1 < |q.msg|)
      && (k + 1 < |p.msg| ==> q.msg[Mu(s, k) + 1] == p.msg[k + 1])
  {
    hide Mu, Inserted, Before;
    var k := p.IndexOf(u_apos, i);
    FreeBefore(s, i);
    MakeSame(p, q, s, i, k);
    SameIndexOf(p, q, s, i, k, i);
    SameAt(p, q, s, i, k, k);
    FreeNext(s, k);
    InsertedAt(p.msg, s, k + 1, |p.msg|);
  }

  lemma {:induction false} QuotedSim(p: Grammar, q: Grammar, s: set<nat>, i: nat)
    requires Quotes(p, q, s) && i <= |p.msg|
    requires var (items, next) := p.Quoted(i); forall t: nat :: i <= t <= next ==> (t in s <==> t in InsertList(items))
    ensures Before(s, i) <= |q.msg|
    ensures q.Quoted(Before(s, i)) == (MapItems(s, p.Quoted(i).0), Mu(s, p.Quoted(i).1))
    decreases |p.msg| - i
  {
    hide Mu, Inserted, MapItems, InsertList, Before, Quotes, Grammar.IndexOf, Grammar.Quoted;
    var k := p.IndexOf(u_apos, i);
    QuotedIs(p, i);
    if k == |p.msg| {
      LeafNoInserts(INSERT_CHAR, k, 0, u_apos as int);
      assert |p.msg| in [|p.msg|];
      UnclosedQuote(p, q, s, i);
      QuotedIs(q, Before(s, i));
      MapLeaf(s, INSERT_CHAR, k, 0, u_apos as int);
    } else if k + 1 < |p.msg| && p.msg[k + 1] == u_apos {
      var (rest, next) := p.Quoted(k + 2);
      QuotedInserts(p, k + 2);
      LeafNoInserts(SKIP_SYNTAX, k + 1, 1, 0);
      InsertListAppend([Leaf(SKIP_SYNTAX, k + 1, 1, 0)], rest);
      assert [] + InsertList(rest) == InsertList(rest);
      SameApostrophe(p, q, s, i);
      QuotedIs(q, Before(s, i));
      BeforeNext(s, k + 1);
      QuotedSim(p, q, s, k + 2);
      MapLeaf(s, SKIP_SYNTAX, k + 1, 1, 0);
      MapAppend(s, [Leaf(SKIP_SYNTAX, k + 1, 1, 0)], rest);
    } else {
      LeafNoInserts(SKIP_SYNTAX, k, 1, 0);
      SameApostrophe(p, q, s, i);
      QuotedIs(q, Before(s, i));
      MapLeaf(s, SKIP_SYNTAX, k, 1, 0);
    }
  }

  lemma CharAt(p: Grammar, q: Grammar, s: set<nat>, i: nat)
    requires Quotes(p, q, s) && i <= |p.msg|
    ensures i < |p.msg| ==> Mu(s, i) < |q.msg| && q.msg[Mu(s, i)] == p.msg[i]
    ensures i == |p.msg| ==> Mu(s, i) == |q.msg|
    ensures i in s ==> Mu(s, i) > 0 && Mu(s, i) - 1 < |q.msg| && q.msg[Mu(s, i) - 1] == u_apos
    ensures Mu(s, i) <= |q.msg|
  {
    InsertedAt(p.msg, s, i, |p.msg|);
  }

  lemma SameStartsQuote(p: Grammar, q: Grammar, s: set<nat>, c: Unit, parent: ArgType)
    requires Quotes(p, q, s) && p.StartsQuote(c, parent)
    ensures q.StartsQuote(c, parent)
  {
  }

  lemma ApostropheSim(p: Grammar, q: Grammar, s: set<nat>, i: nat, parent: ArgType)
    requires Quotes(p, q, s) && i < |p.msg|
    requires Matches(s, i, p.Apostrophe(i, parent).1, InsertList(p.Apostrophe(i, parent).0))
    ensures Mu(s, i) < |q.msg|
    ensures q.Apostrophe(Mu(s, i), parent) == (MapItems(s, p.Apostrophe(i, parent).0), Mu(s, p.Apostrophe(i, parent).1))
  {
    hide Mu, Inserted, MapItems, InsertList, Before, Quotes, Grammar.Quoted, Grammar.StartsQuote;
    CharAt(p, q, s, i);
    CharAt(p, q, s, i + 1);
    BeforeNext(s, i);
    if i + 1 < |p.msg| && p.msg[i + 1] == u_apos {
      LeafNoInserts(SKIP_SYNTAX, i + 1, 1, 0);
      FreeNext(s, i);
      FreeNext(s, i + 1);
      MapLeaf(s, SKIP_SYNTAX, i + 1, 1, 0);
    } else if i + 1 < |p.msg| && p.StartsQuote(p.msg[i + 1], parent) {
      QuoteSim(p, q, s, i, parent);
    } else {
      LeafNoInserts(INSERT_CHAR, i + 1, 0, u_apos as int);
      assert i + 1 in [i + 1];
      MapLeaf(s, INSERT_CHAR, i + 1, 0, u_apos as int);
    }
  }

  lemma QuoteSim(p: Grammar, q: Grammar, s: set<nat>, i: nat, parent: ArgType)
    requires Quotes(p, q, s) && i + 1 < |p.msg| && p.msg[i + 1] != u_apos && p.StartsQuote(p.msg[i + 1], parent)
    requires Matches(s, i, p.Apostrophe(i, parent).1, InsertList(p.Apostrophe(i, parent).0))
    ensures Mu(s, i) < |q.msg|
    ensures q.Apostrophe(Mu(s, i), parent) == (MapItems(s, p.Apostrophe(i, parent).0), Mu(s, p.Apostrophe(i, parent).1))
  {
    hide Mu, Inserted, MapItems, InsertList, Before, Quotes, Grammar.Quoted, Grammar.StartsQuote;
    var (items, next) := p.Quoted(i + 2);
    CharAt(p, q, s, i);
    CharAt(p, q, s, i + 1);
    QuotedInserts(p, i + 2);
    LeafNoInserts(SKIP_SYNTAX, i, 1, 0);
    InsertListAppend([Leaf(SKIP_SYNTAX, i, 1, 0)], items);
    assert [] + InsertList(items) == InsertList(items);
    FreeNext(s, i);
    BeforeNext(s, i + 1);
    QuotedSim(p, q, s, i + 2);
    SameStartsQuote(p, q, s, p.msg[i + 1], parent);
    MapLeaf(s, SKIP_SYNTAX, i, 1, 0);
    MapAppend(s, [Leaf(SKIP_SYNTAX, i, 1, 0)], items);
  }

  lemma MapNothing(s: set<nat>)
    ensures MapItems(s, []) == []
  {
  }

  lemma TextSim(p: Grammar, q: Grammar, s: set<nat>, i: nat, parent: ArgType)
    requires Quotes(p, q, s) && i < |p.msg|
    requires Matches(s, i, p.Text(i, parent).1, InsertList(p.Text(i, parent).0))
    ensures Mu(s, i) < |q.msg|
    ensures q.Text(Mu(s, i), parent) == (MapItems(s, p.Text(i, parent).0), Mu(s, p.Text(i, parent).1))
  {
    hide Mu, Inserted, MapItems, InsertList, Quotes, Grammar.Apostrophe;
    CharAt(p, q, s, i);
    if p.msg[i] == u_apos {
      ApostropheSim(p, q, s, i, parent);
    } else {
      LeafNoInserts(REPLACE_NUMBER, i, 1, 0);
      NothingInserted();
      FreeNext(s, i);
      MapLeaf(s, REPLACE_NUMBER, i, 1, 0);
      MapNothing(s);
    }
  }
}
