/** Normalization of only those parts of a text whose characters are in a set. */
module FilteredNormalizer2 {
  import opened Basics

  datatype CheckResult = No | Yes | Maybe

  /** A normalization with its quick checks, and the set. */
  datatype Filtered = Filtered(
    normalize: seq<int> -> seq<int>, quickCheck: seq<int> -> CheckResult, spanQuickCheckYes: seq<int> -> int,
    filter: set<int>)
  {
    /** The end of the run at from, of characters which are all in the set, or all not in the set. */
    function Span(s: seq<int>, from: nat, contained: bool): (limit: nat)
      requires from <= |s|
      ensures from <= limit <= |s|
      ensures forall k :: from <= k < limit ==> ((s[k] in filter) == contained)
      ensures limit < |s| ==> (s[limit] in filter) != contained
      decreases |s| - from
    {
      if from < |s| && (s[from] in filter) == contained then Span(s, from + 1, contained) else from
    }

    /** The start of the run before limit. */
    function SpanBack(s: seq<int>, limit: nat, contained: bool): (start: nat)
      requires limit <= |s|
      ensures start <= limit
      ensures forall k :: start <= k < limit ==> ((s[k] in filter) == contained)
      ensures start > 0 ==> (s[start - 1] in filter) != contained
    {
      if limit > 0 && (s[limit - 1] in filter) == contained then SpanBack(s, limit - 1, contained) else limit
    }

    ghost predicate Inside(s: seq<int>) {
      forall k :: 0 <= k < |s| ==> s[k] in filter
    }

    ghost predicate AppendLaw(x: seq<int>, y: seq<int>) {
      normalize(normalize(x) + y) == normalize(x + y)
    }

    ghost predicate StaysInside(x: seq<int>) {
      Inside(x) ==> Inside(normalize(x))
    }

    /** What is assumed about the normalization. */
    ghost predicate Lawful() {
      && normalize([]) == []
      && (forall x, y :: AppendLaw(x, y))
      && forall x :: StaysInside(x)
    }

    ghost predicate CheckLaw(x: seq<int>) {
      && (quickCheck(x) == Yes ==> normalize(x) == x)
      && (quickCheck(x) == No ==> normalize(x) != x)
    }

    ghost predicate SpanLaw(x: seq<int>) {
      && 0 <= spanQuickCheckYes(x) <= |x|
      && normalize(x[..spanQuickCheckYes(x)]) == x[..spanQuickCheckYes(x)]
    }

    /** What is assumed about the quick checks: an answer other than "maybe" is right. */
    ghost predicate Checked() {
      && quickCheck([]) == Yes
      && (forall x :: CheckLaw(x))
      && forall x :: SpanLaw(x)
    }

    /** Is s[a..b] a maximal part inside the set? */
    ghost predicate Run(s: seq<int>, a: int, b: int) {
      && 0 <= a < b <= |s| && Inside(s[a..b])
      && (a == 0 || s[a - 1] !in filter) && (b == |s| || s[b] !in filter)
    }

    /** Each maximal run inside the set is normalized, the rest is copied. */
    function Apply(s: seq<int>): seq<int>
      decreases |s|
    {
      if s == [] then []
      else if s[0] !in filter then [s[0]] + Apply(s[1..])
      else
        var k := Span(s, 0, true);
        normalize(s[..k]) + Apply(s[k..])
    }

    /** A run inside the set, and the rest. */
    lemma ApplyRun(s: seq<int>, k: nat)
      requires normalize([]) == [] && k <= |s| && Inside(s[..k]) && (k < |s| ==> s[k] !in filter)
      ensures Apply(s) == normalize(s[..k]) + Apply(s[k..])
    {
      assert k > 0 ==> s[..k][0] in filter && s[0] == s[..k][0];
      if s != [] && s[0] in filter {
        SpanIs(s, k);
      } else {
        assert s[..0] == [] && s[0..] == s;
      }
    }

    lemma SpanIs(s: seq<int>, k: nat)
      requires k <= |s| && Inside(s[..k]) && (k < |s| ==> s[k] !in filter)
      ensures Span(s, 0, true) == k
    {
      forall i | 0 <= i < k
        ensures s[i] in filter
      {
        assert s[..k][i] in filter;
      }
      var j := Span(s, 0, true);
      assert j < |s| ==> s[j] !in filter;
    }

    /** Where no run goes across, both sides are independent. */
    lemma {:induction false} ApplySplit(x: seq<int>, y: seq<int>)
      requires normalize([]) == []
      requires x == [] || y == [] || x[|x| - 1] !in filter || y[0] !in filter
      ensures Apply(x + y) == Apply(x) + Apply(y)
      decreases |x|
    {
      if x == [] {
        assert x + y == y;
      } else if y == [] {
        assert x + y == x;
      } else if x[0] !in filter {
        ApplySplit(x[1..], y);
        assert (x + y)[1..] == x[1..] + y;
      } else {
        var k := Span(x, 0, true);
        assert (x + y)[..k] == x[..k] && (x + y)[k..] == x[k..] + y;
        assert k < |x + y| ==> (x + y)[k] == if k < |x| then x[k] else y[0];
        ApplyRun(x + y, k);
        ApplyRun(x, k);
        ApplySplit(x[k..], y);
      }
    }

    /** Text which is not in the set is copied. */
    lemma {:induction false} ApplyOutside(s: seq<int>)
      requires forall k :: 0 <= k < |s| ==> s[k] !in filter
      ensures Apply(s) == s
      decreases |s|
    {
      if s != [] {
        ApplyOutside(s[1..]);
      }
    }

    lemma EmptyLaw()
      requires Lawful()
      ensures normalize([]) == []
    {
    }

    lemma InsideLaw(x: seq<int>)
      requires Lawful() && Inside(x)
      ensures Inside(normalize(x))
    {
      assert StaysInside(x);
    }

    lemma AppendIs(x: seq<int>, y: seq<int>)
      requires Lawful()
      ensures normalize(normalize(x) + y) == normalize(x + y)
    {
      assert AppendLaw(x, y);
    }

    /** The last run inside the set of filtered text is the normalized last run. */
    lemma LastRun(x: seq<int>)
      requires Lawful()
      ensures var b := SpanBack(x, |x|, true); var f := Apply(x);
        && f == Apply(x[..b]) + normalize(x[b..])
        && SpanBack(f, |f|, true) == |Apply(x[..b])|
    {
      hide Apply, Lawful, SpanBack;
      var b := SpanBack(x, |x|, true);
      var f := Apply(x);
      EmptyLaw();
      assert x == x[..b] + x[b..];
      ApplySplit(x[..b], x[b..]);
      ApplyRun(x[b..], |x| - b);
      assert x[b..][..|x| - b] == x[b..] && x[b..][|x| - b..] == [];
      assert Apply([]) == [] by {
        ApplyOutside([]);
      }
      assert normalize(x[b..]) + [] == normalize(x[b..]);
      InsideLaw(x[b..]);
      LastOutside(x[..b]);
      var a := |Apply(x[..b])|;
      assert forall k :: a <= k < |f| ==> f[k] == normalize(x[b..])[k - a];
      SpanBackIs(f, a);
    }

    lemma SpanBackIs(f: seq<int>, a: nat)
      requires a <= |f| && (forall k :: a <= k < |f| ==> f[k] in filter) && (a > 0 ==> f[a - 1] !in filter)
      ensures SpanBack(f, |f|, true) == a
    {
    }

    /** Filtered text ends with the same character outside the set. */
    lemma LastOutside(x: seq<int>)
      requires normalize([]) == [] && (x == [] || x[|x| - 1] !in filter)
      ensures var f := Apply(x); if x == [] then f == [] else f != [] && f[|f| - 1] !in filter
    {
      if x != [] {
        var n := |x| - 1;
        assert x == x[..n] + [x[n]];
        ApplySplit(x[..n], [x[n]]);
        ApplyOutside([x[n]]);
      }
    }

    /** Appending to filtered text: only the run across the border is normalized again. */
    lemma ApplyAppend(x: seq<int>, y: seq<int>)
      requires Lawful()
      ensures var f := Apply(x); var a, k := SpanBack(f, |f|, true), Span(y, 0, true);
        Apply(x + y) == f[..a] + normalize(f[a..] + y[..k]) + Apply(y[k..])
    {
      hide Apply, Lawful, SpanBack, Span, Inside;
      var b, k := SpanBack(x, |x|, true), Span(y, 0, true);
      var f := Apply(x);
      LastRun(x);
      EmptyLaw();
      BorderSlices(x, b, y, k);
      BorderStart(x, b, y, k);
      SplitRun(x + y, x[..b], x[b..] + y, |x| - b + k, x[b..] + y[..k], y[k..]);
      AppendIs(x[b..], y[..k]);
      var a := |Apply(x[..b])|;
      assert f[..a] == Apply(x[..b]) && f[a..] == normalize(x[b..]);
      Associate(f[..a], normalize(x[b..] + y[..k]), Apply(y[k..]));
    }

    /** Text which does not end inside a run, and then a run and the rest. */
    lemma SplitRun(all: seq<int>, start: seq<int>, z: seq<int>, n: nat, run: seq<int>, rest: seq<int>)
      requires normalize([]) == [] && all == start + z && (start == [] || start[|start| - 1] !in filter)
      requires n <= |z| && z[..n] == run && z[n..] == rest && Inside(run) && (n < |z| ==> z[n] !in filter)
      ensures Apply(all) == Apply(start) + (normalize(run) + Apply(rest))
    {
      hide Apply, Inside;
      ApplySplit(start, z);
      ApplyRun(z, n);
    }

    lemma BorderSlices(x: seq<int>, b: nat, y: seq<int>, k: nat)
      requires b <= |x| && k <= |y|
      ensures var z, n := x[b..] + y, |x| - b + k;
        x + y == x[..b] + z && z[..n] == x[b..] + y[..k] && z[n..] == y[k..]
    {
    }

    lemma BorderStart(x: seq<int>, b: nat, y: seq<int>, k: nat)
      requires b == SpanBack(x, |x|, true) && k == Span(y, 0, true)
      ensures var z := x[b..] + y; var n := |x| - b + k;
        Inside(z[..n]) && (n < |z| ==> z[n] !in filter) && (b > 0 ==> x[..b][b - 1] !in filter)
    {
      hide SpanBack, Span;
    }

    /** Filtering filtered text changes nothing. */
    lemma {:induction false} ApplyTwice(x: seq<int>)
      requires Lawful()
      ensures Apply(Apply(x)) == Apply(x)
      decreases |x|
    {
      if x != [] {
        if x[0] !in filter {
          ApplyTwice(x[1..]);
          assert ([x[0]] + Apply(x[1..]))[1..] == Apply(x[1..]);
        } else {
          var k := Span(x, 0, true);
          var run, rest := normalize(x[..k]), Apply(x[k..]);
          ApplyTwice(x[k..]);
          assert StaysInside(x[..k]) && AppendLaw(x[..k], []);
          assert x[..k] + [] == x[..k] && run + [] == run;
          StartsOutside(x[k..]);
          assert (run + rest)[..|run|] == run && (run + rest)[|run|..] == rest;
          ApplyRun(run + rest, |run|);
        }
      }
    }

    lemma StartsOutside(y: seq<int>)
      requires y == [] || y[0] !in filter
      ensures Apply(y) == [] || Apply(y)[0] !in filter
    {
    }

    /** Text is unchanged exactly when its first run and the rest are unchanged. */
    lemma UnchangedRun(s: seq<int>, k: nat)
      requires Lawful() && k <= |s| && Inside(s[..k]) && (k < |s| ==> s[k] !in filter)
      ensures Apply(s) == s <==> normalize(s[..k]) == s[..k] && Apply(s[k..]) == s[k..]
    {
      ApplyRun(s, k);
      assert s == s[..k] + s[k..];
      if Apply(s) == s {
        var run, rest := normalize(s[..k]), Apply(s[k..]);
        assert StaysInside(s[..k]);
        StartsOutside(s[k..]);
        SpanIs(s, k);
        assert s[..|run|] == run;
        assert |run| < |s| ==> rest != [] && s[|run|] == rest[0];
        SpanIs(s, |run|);
        assert s[|run|..] == rest;
      }
    }
  }

  class FilteredNormalizer2 {
    const norm2: Filtered

    constructor (normalization: seq<int> -> seq<int>, check: seq<int> -> CheckResult, spanYes: seq<int> -> int,
                 filterSet: set<int>)
      ensures norm2 == Filtered(normalization, check, spanYes, filterSet)
    {
      norm2 := Filtered(normalization, check, spanYes, filterSet);
    }

    /** Appends the filtered text; the condition for the first span can be wrong. */
    method AppendNormalized(src: seq<int>, dest0: seq<int>, simple: bool) returns (dest: seq<int>)
      requires norm2.Lawful()
      ensures dest == dest0 + norm2.Apply(src)
    {
      hide Filtered.Lawful, Filtered.Apply;
      dest := dest0;
      var prevSpanLimit, spanCondition := 0, simple;
      Whole(src, dest0);
      while prevSpanLimit < |src|
        invariant prevSpanLimit <= |src| && dest + norm2.Apply(src[prevSpanLimit..]) == dest0 + norm2.Apply(src)
        decreases |src| - prevSpanLimit,
                  if prevSpanLimit < |src| && (src[prevSpanLimit] in norm2.filter) == spanCondition then 0 else 1
      {
        var spanLimit := norm2.Span(src, prevSpanLimit, spanCondition);
        var run := src[prevSpanLimit..spanLimit];
        SpanStep(src, prevSpanLimit, spanLimit, spanCondition, dest);
        if !spanCondition {
          dest := dest + run;
        } else if run != [] {
          dest := dest + norm2.normalize(run);
        }
        spanCondition := !spanCondition;
        prevSpanLimit := spanLimit;
      }
      assert src[prevSpanLimit..] == [];
      Nothing(dest);
    }

    lemma Whole(src: seq<int>, dest: seq<int>)
      ensures dest + norm2.Apply(src[0..]) == dest + norm2.Apply(src)
    {
      assert src[0..] == src;
    }

    lemma Nothing(dest: seq<int>)
      ensures dest + norm2.Apply([]) == dest
    {
    }

    lemma SpanStep(src: seq<int>, from: nat, limit: nat, contained: bool, dest: seq<int>)
      requires norm2.Lawful() && from <= |src| && limit == norm2.Span(src, from, contained)
      ensures var run := src[from..limit];
        dest + norm2.Apply(src[from..]) ==
          (if contained then (if run == [] then dest else dest + norm2.normalize(run)) else dest + run)
          + norm2.Apply(src[limit..])
    {
      hide Filtered.Lawful, Filtered.Apply, Filtered.Span;
      var s, run, rest := src[from..], src[from..limit], src[limit..];
      norm2.EmptyLaw();
      assert s == run + rest && s[..|run|] == run && s[|run|..] == rest;
      if contained {
        norm2.ApplyRun(s, |run|);
        assert [] + norm2.Apply(rest) == norm2.Apply(rest);
        assert dest + (norm2.normalize(run) + norm2.Apply(rest)) == (dest + norm2.normalize(run)) + norm2.Apply(rest);
      } else {
        norm2.ApplySplit(run, rest);
        norm2.ApplyOutside(run);
        assert dest + (run + norm2.Apply(rest)) == (dest + run) + norm2.Apply(rest);
      }
    }

    method Normalize(src: seq<int>) returns (dest: seq<int>)
      requires norm2.Lawful()
      ensures dest == norm2.Apply(src)
    {
      dest := AppendNormalized(src, [], true);
    }

    /** Appends text to filtered text; a run across the border is normalized as a whole. */
    method NormalizeSecondAndAppend(first: seq<int>, second: seq<int>, doNormalize: bool, ghost x: seq<int>)
      returns (r: seq<int>)
      requires norm2.Lawful() && first == norm2.Apply(x)
      requires !doNormalize ==> second == norm2.Apply(second)
      ensures r == norm2.Apply(x + second)
    {
      hide Filtered.Lawful, Filtered.Apply;
      norm2.ApplyAppend(x, second);
      var prefixLimit := norm2.Span(second, 0, true);
      FixedRest(second, prefixLimit, doNormalize);
      if first == [] {
        EmptyFirst(x, second);
        if doNormalize {
          r := Normalize(second);
        } else {
          r := second;
        }
        return;
      }
      r := first;
      var suffixStart := norm2.SpanBack(first, |first|, true);
      if prefixLimit != 0 {
        var prefix := second[..prefixLimit];
        if suffixStart == 0 {
          assert first[0..] == first && first[..0] == [];
          r := norm2.normalize(first + prefix);
        } else {
          var middle := first[suffixStart..];
          middle := norm2.normalize(middle + prefix);
          r := first[..suffixStart] + middle;
        }
      } else {
        FixedSuffix(x);
        assert second[..0] == [] && first[suffixStart..] + [] == first[suffixStart..];
        assert first == first[..suffixStart] + first[suffixStart..];
      }
      if prefixLimit < |second| {
        var rest := second[prefixLimit..];
        if doNormalize {
          r := AppendNormalized(rest, r, false);
        } else {
          r := r + rest;
        }
      } else {
        assert second[prefixLimit..] == [];
        Nothing(r);
      }
    }

    lemma EmptyFirst(x: seq<int>, second: seq<int>)
      requires norm2.Lawful() && norm2.Apply(x) == []
      ensures norm2.Apply(x + second) == norm2.Apply(second)
    {
      norm2.ApplyAppend(x, second);
      norm2.ApplyAppend([], second);
      assert [] + second == second;
    }

    /** The last run of filtered text is normalized. */
    lemma FixedSuffix(x: seq<int>)
      requires norm2.Lawful()
      ensures var f := norm2.Apply(x); var a := norm2.SpanBack(f, |f|, true); norm2.normalize(f[a..]) == f[a..]
    {
      norm2.LastRun(x);
      var f := norm2.Apply(x);
      var b, a := norm2.SpanBack(x, |x|, true), norm2.SpanBack(f, |f|, true);
      assert f[a..] == norm2.normalize(x[b..]);
      assert norm2.AppendLaw(x[b..], []);
      assert x[b..] + [] == x[b..] && f[a..] + [] == f[a..];
    }

    /** The rest of a filtered text is filtered. */
    lemma FixedRest(second: seq<int>, prefixLimit: nat, doNormalize: bool)
      requires norm2.Lawful() && prefixLimit == norm2.Span(second, 0, true)
      requires !doNormalize ==> second == norm2.Apply(second)
      ensures !doNormalize ==> norm2.Apply(second[prefixLimit..]) == second[prefixLimit..]
    {
      norm2.UnchangedRun(second, prefixLimit);
    }

    /** Is each run inside the set normalized? */
    method IsNormalized(s: seq<int>) returns (r: bool)
      requires norm2.Lawful()
      ensures r <==> norm2.Apply(s) == s
    {
      hide Filtered.Lawful, Filtered.Apply;
      var prevSpanLimit, spanCondition := 0, true;
      assert s[0..] == s;
      while prevSpanLimit < |s|
        invariant prevSpanLimit <= |s|
        invariant norm2.Apply(s) == s <==> norm2.Apply(s[prevSpanLimit..]) == s[prevSpanLimit..]
        decreases |s| - prevSpanLimit,
                  if prevSpanLimit < |s| && (s[prevSpanLimit] in norm2.filter) == spanCondition then 0 else 1
      {
        var spanLimit := norm2.Span(s, prevSpanLimit, spanCondition);
        UnchangedStep(s, prevSpanLimit, spanLimit, spanCondition);
        if spanCondition {
          var run := s[prevSpanLimit..spanLimit];
          if norm2.normalize(run) != run {
            return false;
          }
        }
        spanCondition := !spanCondition;
        prevSpanLimit := spanLimit;
      }
      assert s[prevSpanLimit..] == [];
      Nothing([]);
      r := true;
    }

    /** "No" if some run is not normalized, "yes" if every run is, as far as the quick check of each run says. */
    method QuickCheck(s: seq<int>) returns (result: CheckResult)
      requires norm2.Lawful() && norm2.Checked()
      ensures result == No <==> exists a, b :: norm2.Run(s, a, b) && norm2.quickCheck(s[a..b]) == No
      ensures result == Yes <==> forall a, b :: norm2.Run(s, a, b) ==> norm2.quickCheck(s[a..b]) == Yes
      ensures result == Yes ==> norm2.Apply(s) == s
      ensures result == No ==> norm2.Apply(s) != s
    {
      hide Filtered.Lawful, Filtered.Checked, Filtered.Apply, Filtered.Inside;
      var prevSpanLimit, spanCondition := 0, true;
      result := Yes;
      NothingChecked(s);
      while prevSpanLimit < |s|
        invariant prevSpanLimit <= |s| && At(s, prevSpanLimit, spanCondition) && result != No
        invariant forall a, b :: norm2.Run(s, a, b) && b <= prevSpanLimit ==> norm2.quickCheck(s[a..b]) != No
        invariant result == Yes <==>
                    forall a, b :: norm2.Run(s, a, b) && b <= prevSpanLimit ==> norm2.quickCheck(s[a..b]) == Yes
        invariant norm2.Apply(s) == s ==> norm2.Apply(s[prevSpanLimit..]) == s[prevSpanLimit..]
        invariant result == Yes ==> (norm2.Apply(s) == s <==> norm2.Apply(s[prevSpanLimit..]) == s[prevSpanLimit..])
        decreases |s| - prevSpanLimit,
                  if prevSpanLimit < |s| && (s[prevSpanLimit] in norm2.filter) == spanCondition then 0 else 1
      {
        var spanLimit := norm2.Span(s, prevSpanLimit, spanCondition);
        UnchangedStep(s, prevSpanLimit, spanLimit, spanCondition);
        NextRun(s, prevSpanLimit, spanLimit, spanCondition);
        if spanCondition {
          var qcResult := norm2.quickCheck(s[prevSpanLimit..spanLimit]);
          Checks(s[prevSpanLimit..spanLimit]);
          if qcResult == No {
            return qcResult;
          } else if qcResult == Maybe {
            result := qcResult;
          }
        }
        spanCondition := !spanCondition;
        prevSpanLimit := spanLimit;
      }
      assert s[prevSpanLimit..] == [];
      Nothing([]);
    }

    /** The end of a normalized prefix: up to the first run which is not wholly a quick check "yes". */
    method SpanQuickCheckYes(s: seq<int>) returns (end: nat)
      requires norm2.Lawful() && norm2.Checked()
      ensures end <= |s|
      ensures forall a, b :: norm2.Run(s, a, b) && b <= end ==> norm2.spanQuickCheckYes(s[a..b]) == b - a
      ensures end < |s| ==>
                exists a, b :: norm2.Run(s, a, b) && end == a + norm2.spanQuickCheckYes(s[a..b]) < b
      ensures norm2.Apply(s[..end]) == s[..end]
    {
      hide Filtered.Lawful, Filtered.Checked, Filtered.Apply, Filtered.Inside;
      var prevSpanLimit, spanCondition := 0, true;
      NothingChecked(s);
      while prevSpanLimit < |s|
        invariant prevSpanLimit <= |s| && At(s, prevSpanLimit, spanCondition)
        invariant forall a, b :: norm2.Run(s, a, b) && b <= prevSpanLimit ==> norm2.spanQuickCheckYes(s[a..b]) == b - a
        invariant norm2.Apply(s[..prevSpanLimit]) == s[..prevSpanLimit]
        decreases |s| - prevSpanLimit,
                  if prevSpanLimit < |s| && (s[prevSpanLimit] in norm2.filter) == spanCondition then 0 else 1
      {
        var spanLimit := norm2.Span(s, prevSpanLimit, spanCondition);
        NextRun(s, prevSpanLimit, spanLimit, spanCondition);
        if spanCondition {
          Spans(s[prevSpanLimit..spanLimit]);
          var yesLimit := prevSpanLimit + norm2.spanQuickCheckYes(s[prevSpanLimit..spanLimit]);
          assert s[prevSpanLimit..spanLimit][..yesLimit - prevSpanLimit] == s[prevSpanLimit..yesLimit];
          PrefixGrows(s, prevSpanLimit, yesLimit, spanCondition);
          if yesLimit < spanLimit {
            return yesLimit;
          }
        } else {
          PrefixGrows(s, prevSpanLimit, spanLimit, spanCondition);
        }
        spanCondition := !spanCondition;
        prevSpanLimit := spanLimit;
      }
      end := |s|;
    }

    /** Between two spans: after text which is not in the set, or before it. */
    predicate At(s: seq<int>, i: nat, spanCondition: bool)
      requires i <= |s|
    {
      if spanCondition then i == 0 || s[i - 1] !in norm2.filter else i == |s| || s[i] !in norm2.filter
    }

    lemma NothingChecked(s: seq<int>)
      requires norm2.Lawful()
      ensures forall a, b :: norm2.Run(s, a, b) ==> b > 0
      ensures s[0..] == s && s[..0] == [] && norm2.Apply([]) == []
    {
    }

    /** A span inside the set is the next run, if it is not empty; there is no run in any other span. */
    lemma NextRun(s: seq<int>, from: nat, limit: nat, contained: bool)
      requires from < |s| && At(s, from, contained) && limit == norm2.Span(s, from, contained)
      ensures At(s, limit, !contained)
      ensures contained && from < limit ==> norm2.Run(s, from, limit)
      ensures forall a, b :: norm2.Run(s, a, b) && from < b <= limit ==> contained && a == from && b == limit
    {
      hide Filtered.Span;
      forall a, b | norm2.Run(s, a, b) && from < b <= limit
        ensures contained && a == from && b == limit
      {
        RunInside(s, a, b);
        assert s[b - 1] in norm2.filter;
      }
    }

    lemma RunInside(s: seq<int>, a: int, b: int)
      requires norm2.Run(s, a, b)
      ensures forall k :: a <= k < b ==> s[k] in norm2.filter
    {
      assert forall k :: a <= k < b ==> s[a..b][k - a] == s[k];
    }

    lemma Checks(x: seq<int>)
      requires norm2.Checked()
      ensures norm2.CheckLaw(x) && (x == [] ==> norm2.quickCheck(x) == Yes)
    {
    }

    lemma Spans(x: seq<int>)
      requires norm2.Checked()
      ensures norm2.SpanLaw(x)
    {
    }

    /** A normalized prefix followed by part of a run which is normalized, or by text which is not in the set. */
    lemma PrefixGrows(s: seq<int>, from: nat, limit: nat, contained: bool)
      requires norm2.Lawful() && from <= limit <= |s| && norm2.Apply(s[..from]) == s[..from] && At(s, from, contained)
      requires forall k :: from <= k < limit ==> (s[k] in norm2.filter) == contained
      requires contained ==> norm2.normalize(s[from..limit]) == s[from..limit]
      ensures norm2.Apply(s[..limit]) == s[..limit]
    {
      hide Filtered.Lawful, Filtered.Apply;
      norm2.EmptyLaw();
      var x, run := s[..from], s[from..limit];
      assert s[..limit] == x + run;
      norm2.ApplySplit(x, run);
      if contained {
        assert run[..|run|] == run && run[|run|..] == [];
        norm2.UnchangedRun(run, |run|);
        Nothing([]);
      } else {
        norm2.ApplyOutside(run);
      }
    }

    lemma UnchangedStep(s: seq<int>, from: nat, limit: nat, contained: bool)
      requires norm2.Lawful() && from <= |s| && limit == norm2.Span(s, from, contained)
      ensures norm2.Apply(s[from..]) == s[from..] <==>
                (contained ==> norm2.normalize(s[from..limit]) == s[from..limit]) && norm2.Apply(s[limit..]) == s[limit..]
    {
      hide Filtered.Lawful, Filtered.Apply, Filtered.Span;
      norm2.EmptyLaw();
      var t, run, rest := s[from..], s[from..limit], s[limit..];
      assert t == run + rest && t[..|run|] == run && t[|run|..] == rest;
      if contained {
        norm2.UnchangedRun(t, |run|);
      } else {
        norm2.ApplySplit(run, rest);
        norm2.ApplyOutside(run);
      }
    }
  }
}
