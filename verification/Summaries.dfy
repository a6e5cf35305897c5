/** The list of redaction summaries: its sorting and deduplication in `sanitize_with`,
    `collect-diff-context-cli/src/secret_scan.rs`. */
module Summaries {
  import opened ByteStrings
  import opened Sorting

  datatype RedactionSummary = RedactionSummary(ruleId: Bytes, startLine: nat, endLine: nat)

  predicate SummaryBefore(a: RedactionSummary, b: RedactionSummary) {
    a.startLine < b.startLine || (a.startLine == b.startLine && Less(a.ruleId, b.ruleId))
  }

  /** `sort_by` on start line and rule. */
  function SortSummaries(items: seq<RedactionSummary>): seq<RedactionSummary> {
    Sort(items, SummaryBefore)
  }

  /** `dedup`: drops an item that equals the one before it. */
  function Dedup(items: seq<RedactionSummary>): (r: seq<RedactionSummary>)
    ensures forall y :: y in r <==> y in items
    ensures forall i :: 0 < i < |r| ==> r[i] != r[i - 1]
    ensures items != [] ==> r != [] && r[|r| - 1] == items[|items| - 1]
  {
    if items == [] then []
    else
      var n := |items| - 1;
      assert items == items[..n] + [items[n]];
      var front := Dedup(items[..n]);
      if n > 0 && items[n - 1] == items[n] then front else front + [items[n]]
  }

  // ---------------------------------------------------------------- what deduplication leaves

  ghost predicate Distinct(s: seq<RedactionSummary>) {
    forall i, j :: 0 <= i < j < |s| ==> s[i] != s[j]
  }

  ghost predicate ReturnsAt(s: seq<RedactionSummary>, i: int, j: int, k: int) {
    0 <= i < j < k < |s| && s[i] == s[k] != s[j]
  }

  /** An item comes again after a different one. */
  ghost predicate Returns(s: seq<RedactionSummary>) {
    exists i, j, k :: ReturnsAt(s, i, j, k)
  }

  lemma ReturnsInFront(s: seq<RedactionSummary>, n: nat)
    requires n <= |s| && Returns(s[..n])
    ensures Returns(s)
  {
    var i, j, k :| ReturnsAt(s[..n], i, j, k);
    assert ReturnsAt(s, i, j, k);
  }

  /** Dropping neighbours leaves a list without repetition exactly when nothing returns. */
  lemma {:induction false} DedupIsDistinct(s: seq<RedactionSummary>)
    ensures Distinct(Dedup(s)) <==> !Returns(s)
  {
    if s != [] {
      var n := |s| - 1;
      DedupIsDistinct(s[..n]);
      if n > 0 && s[n - 1] == s[n] {
        RepeatedLast(s);
      } else {
        LastReturns(s);
        LastIsNew(Dedup(s[..n]), s[n]);
      }
    }
  }

  lemma LastIsNew(front: seq<RedactionSummary>, x: RedactionSummary)
    ensures Distinct(front + [x]) <==> Distinct(front) && x !in front
  {
    var s := front + [x];
    if Distinct(s) {
      forall i | 0 <= i < |front|
        ensures front[i] != x
      {
        assert s[i] != s[|front|];
      }
      assert forall i :: 0 <= i < |front| ==> front[i] == s[i];
    }
  }

  lemma RepeatedLast(s: seq<RedactionSummary>)
    requires |s| > 1 && s[|s| - 2] == s[|s| - 1]
    ensures Returns(s) <==> Returns(s[..|s| - 1])
  {
    var n := |s| - 1;
    if i, j, k :| ReturnsAt(s, i, j, k) {
      assert ReturnsAt(s[..n], i, j, if k == n then n - 1 else k);
    }
    if Returns(s[..n]) {
      ReturnsInFront(s, n);
    }
  }

  lemma LastReturns(s: seq<RedactionSummary>)
    requires s != [] && (|s| > 1 ==> s[|s| - 2] != s[|s| - 1])
    ensures Returns(s) <==> Returns(s[..|s| - 1]) || s[|s| - 1] in s[..|s| - 1]
  {
    var n := |s| - 1;
    var front := s[..n];
    if i, j, k :| ReturnsAt(s, i, j, k) {
      if k == n {
        assert front[i] == s[n];
      } else {
        assert ReturnsAt(front, i, j, k);
      }
    }
    if Returns(front) {
      ReturnsInFront(s, n);
    }
    if i :| 0 <= i < n && front[i] == s[n] {
      assert ReturnsAt(s, i, n - 1, n);
    }
  }

  // ---------------------------------------------------------------- what sorting brings together

  predicate SameKey(a: RedactionSummary, b: RedactionSummary) {
    a.startLine == b.startLine && a.ruleId == b.ruleId
  }

  ghost predicate AlternatesWith(s: seq<RedactionSummary>, i: int, j: int, k: int) {
    0 <= i < j < k < |s| && SameKey(s[i], s[j]) && s[i] == s[k] && s[i].endLine != s[j].endLine
  }

  /** Two findings of one rule that start on the same line have summaries with different end lines, and
      the first of the two comes again after the second. */
  ghost predicate Alternates(s: seq<RedactionSummary>) {
    exists i, j, k :: AlternatesWith(s, i, j, k)
  }

  /** The same for one key, by recursion. */
  ghost predicate ComesAgain(x: RedactionSummary, s: seq<RedactionSummary>) {
    s != [] && ((SameKey(x, s[0]) && s[0] != x && x in s[1..]) || ComesAgain(x, s[1..]))
  }

  ghost predicate AlternatesAt(key: RedactionSummary, s: seq<RedactionSummary>) {
    s != [] && ((SameKey(key, s[0]) && ComesAgain(s[0], s[1..])) || AlternatesAt(key, s[1..]))
  }

  ghost predicate ComesAgainWith(x: RedactionSummary, s: seq<RedactionSummary>, j: int, k: int) {
    0 <= j < k < |s| && SameKey(x, s[j]) && s[j] != x && s[k] == x
  }

  lemma {:induction false} ComesAgainWhen(x: RedactionSummary, s: seq<RedactionSummary>, j: int, k: int)
    requires ComesAgainWith(x, s, j, k)
    ensures ComesAgain(x, s)
  {
    var rest := s[1..];
    assert rest[k - 1] == x;
    if j > 0 {
      assert ComesAgainWith(x, rest, j - 1, k - 1);
      ComesAgainWhen(x, rest, j - 1, k - 1);
    }
  }

  lemma {:induction false} ComesAgainWhere(x: RedactionSummary, s: seq<RedactionSummary>) returns (j: int, k: int)
    requires ComesAgain(x, s)
    ensures ComesAgainWith(x, s, j, k)
  {
    var rest := s[1..];
    if SameKey(x, s[0]) && s[0] != x && x in rest {
      j := 0;
      k :| 0 <= k < |rest| && rest[k] == x;
      k := k + 1;
    } else {
      j, k := ComesAgainWhere(x, rest);
      j, k := j + 1, k + 1;
    }
  }

  lemma {:induction false} AlternatesWhen(s: seq<RedactionSummary>, i: int, j: int, k: int)
    requires AlternatesWith(s, i, j, k)
    ensures AlternatesAt(s[i], s)
  {
    var rest := s[1..];
    if i == 0 {
      assert ComesAgainWith(s[0], rest, j - 1, k - 1);
      ComesAgainWhen(s[0], rest, j - 1, k - 1);
    } else {
      assert AlternatesWith(rest, i - 1, j - 1, k - 1);
      AlternatesWhen(rest, i - 1, j - 1, k - 1);
    }
  }

  lemma {:induction false} AlternatesWhere(
    key: RedactionSummary, s: seq<RedactionSummary>) returns (i: int, j: int, k: int)
    requires AlternatesAt(key, s)
    ensures AlternatesWith(s, i, j, k)
  {
    var rest := s[1..];
    if SameKey(key, s[0]) && ComesAgain(s[0], rest) {
      j, k := ComesAgainWhere(s[0], rest);
      i, j, k := 0, j + 1, k + 1;
    } else {
      i, j, k := AlternatesWhere(key, rest);
      i, j, k := i + 1, j + 1, k + 1;
    }
  }

  lemma {:induction false} FilterKeepsMembers(s: seq<RedactionSummary>, p: RedactionSummary -> bool)
    ensures forall x :: x in Filter(s, p) <==> x in s && p(x)
  {
    if s != [] {
      FilterKeepsMembers(s[1..], p);
      assert s == [s[0]] + s[1..];
    }
  }

  lemma {:induction false} FilterComesAgain(x: RedactionSummary, s: seq<RedactionSummary>)
    ensures ComesAgain(x, Filter(s, y => SameKey(x, y))) <==> ComesAgain(x, s)
  {
    if s != [] {
      var p := y => SameKey(x, y);
      FilterComesAgain(x, s[1..]);
      FilterKeepsMembers(s[1..], p);
      if p(s[0]) {
        assert Filter(s, p)[1..] == Filter(s[1..], p);
      }
    }
  }

  lemma {:induction false} FilterAlternates(key: RedactionSummary, s: seq<RedactionSummary>)
    ensures AlternatesAt(key, Filter(s, y => SameKey(key, y))) <==> AlternatesAt(key, s)
  {
    if s != [] {
      var p := y => SameKey(key, y);
      FilterAlternates(key, s[1..]);
      if p(s[0]) {
        assert Filter(s, p)[1..] == Filter(s[1..], p);
        FilterComesAgain(s[0], s[1..]);
        SameFilter(p, y => SameKey(s[0], y), s[1..]);
      }
    }
  }

  lemma {:induction false} SameFilter(
    p: RedactionSummary -> bool, q: RedactionSummary -> bool, s: seq<RedactionSummary>)
    requires forall x :: p(x) == q(x)
    ensures Filter(s, p) == Filter(s, q)
  {
    if s != [] {
      SameFilter(p, q, s[1..]);
    }
  }

  /** Sorting is stable, so each key alternates after it exactly when it did before. */
  lemma SortKeepsAlternation(key: RedactionSummary, s: seq<RedactionSummary>)
    ensures AlternatesAt(key, SortSummaries(s)) <==> AlternatesAt(key, s)
  {
    var p := y => SameKey(key, y);
    LessIrreflexive(key.ruleId);
    SortIsStable(s, SummaryBefore, p);
    FilterAlternates(key, s);
    FilterAlternates(key, SortSummaries(s));
  }

  lemma SummaryOrder()
    ensures WeakOrder(SummaryBefore)
  {
    LessIsWeakOrder();
  }

  /** In a sorted list, what lies between two equal summaries has their key. */
  lemma SortedReturns(s: seq<RedactionSummary>)
    requires InOrder(s, SummaryBefore)
    ensures Returns(s) <==> Alternates(s)
  {
    if i, j, k :| ReturnsAt(s, i, j, k) {
      assert !SummaryBefore(s[j], s[i]) && !SummaryBefore(s[k], s[j]);
      LessTotal(s[i].ruleId, s[j].ruleId);
      assert AlternatesWith(s, i, j, k);
    }
    if i, j, k :| AlternatesWith(s, i, j, k) {
      assert ReturnsAt(s, i, j, k);
    }
  }

  /** The summaries that come out are distinct exactly when, in the order of the report, no summary comes
      again after one with the same rule and start line but another end line. */
  lemma SummariesAreDistinct(s: seq<RedactionSummary>)
    ensures Distinct(Dedup(SortSummaries(s))) <==> !Alternates(s)
  {
    SummaryOrder();
    SortOrders(s, SummaryBefore);
    DedupIsDistinct(SortSummaries(s));
    SortedReturns(SortSummaries(s));
    SortingAlternates(s);
  }

  lemma SortingAlternates(s: seq<RedactionSummary>)
    ensures Alternates(SortSummaries(s)) <==> Alternates(s)
  {
    var sorted := SortSummaries(s);
    if i, j, k :| AlternatesWith(s, i, j, k) {
      AlternatesWhen(s, i, j, k);
      SortKeepsAlternation(s[i], s);
      var u, v, w := AlternatesWhere(s[i], sorted);
      assert AlternatesWith(sorted, u, v, w);
    }
    if i, j, k :| AlternatesWith(sorted, i, j, k) {
      AlternatesWhen(sorted, i, j, k);
      SortKeepsAlternation(sorted[i], s);
      var u, v, w := AlternatesWhere(sorted[i], s);
      assert AlternatesWith(s, u, v, w);
    }
  }

  /** Sorting ignores the end line, so two equal summaries can stay apart. */
  lemma EqualSummariesStayApart(rule: Bytes)
    ensures var a, b := RedactionSummary(rule, 1, 1), RedactionSummary(rule, 1, 2);
            Dedup(SortSummaries([a, b, a])) == [a, b, a]
  {
    LessIrreflexive(rule);
    var a, b := RedactionSummary(rule, 1, 1), RedactionSummary(rule, 1, 2);
    var s := [a, b, a];
    SortedTies(s);
    DedupOfThree(a, b);
  }

  lemma DedupOfThree(a: RedactionSummary, b: RedactionSummary)
    requires a != b
    ensures Dedup([a, b, a]) == [a, b, a]
  {
    assert Dedup([a]) == [a] by {
      assert [a][..0] == [];
    }
    assert Dedup([a, b]) == [a, b] by {
      assert [a, b][..1] == [a];
    }
    assert [a, b, a][..2] == [a, b];
  }

  lemma {:induction false} SortedTies(s: seq<RedactionSummary>)
    requires forall i, j :: 0 <= i < |s| && 0 <= j < |s| ==> SameKey(s[i], s[j])
    ensures SortSummaries(s) == s
  {
    if s != [] {
      SortedTies(s[1..]);
      LessIrreflexive(s[0].ruleId);
      assert s == [s[0]] + s[1..];
    }
  }
}
