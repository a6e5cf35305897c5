/** Redaction of overlapping findings: `sanitize_with` in
    `collect-diff-context-cli/src/secret_scan.rs`. */
module Redaction {
  import opened ByteStrings
  import Utf8

  /** "[redacted:" */
  const TOKEN_OPEN: Bytes := [91, 114, 101, 100, 97, 99, 116, 101, 100, 58]
  const TOKEN_CLOSE: byte := 93
  /** "unknown-rule" */
  const UNKNOWN_RULE: Bytes := [117, 110, 107, 110, 111, 119, 110, 45, 114, 117, 108, 101]

  datatype RedactionSpan = RedactionSpan(start: nat, end: nat, rules: seq<Bytes>)

  // ---------------------------------------------------------------- rule names

  function RuleByte(c: int): byte {
    if NameByte(c) then c else UNDERSCORE
  }

  function SanitizeRuleId(ruleId: Utf8.Text): Bytes {
    var chars := Utf8.Chars(ruleId);
    var kept := if |chars| > 80 then chars[..80] else chars;
    if kept == [] then UNKNOWN_RULE else seq(|kept|, i requires 0 <= i < |kept| => RuleByte(kept[i]))
  }

  ghost predicate IsRuleName(rule: Bytes) {
    0 < |rule| <= 80 && forall i :: 0 <= i < |rule| ==> NameByte(rule[i])
  }

  /** Whatever the scanner reports, the name put into the text is short, non-empty and made of
      letters, digits and ".", "_", "-". */
  lemma SanitizedRuleName(ruleId: Utf8.Text)
    ensures IsRuleName(SanitizeRuleId(ruleId))
  {
    var rule := SanitizeRuleId(ruleId);
    assert forall c :: NameByte(RuleByte(c));
    assert forall i :: 0 <= i < |UNKNOWN_RULE| ==> NameByte(UNKNOWN_RULE[i]);
  }

  // ---------------------------------------------------------------- merged spans

  ghost predicate Covered(spans: seq<RedactionSpan>, p: int) {
    exists s :: s in spans && s.start <= p < s.end
  }

  /** A maximal run of covered positions. */
  ghost predicate IsRun(spans: seq<RedactionSpan>, start: int, end: int) {
    && start < end
    && (forall p :: start <= p < end ==> Covered(spans, p))
    && !Covered(spans, start - 1)
    && !Covered(spans, end)
  }

  ghost predicate HasRule(spans: seq<RedactionSpan>, start: int, end: int, rule: Bytes) {
    exists s :: s in spans && rule in s.rules && start <= s.start < end
  }

  ghost predicate Separated(merged: seq<RedactionSpan>) {
    forall i, j :: 0 <= i < j < |merged| ==> merged[i].end < merged[j].start
  }

  ghost predicate RunWithRules(spans: seq<RedactionSpan>, m: RedactionSpan) {
    && IsRun(spans, m.start, m.end)
    && Ascending(m.rules)
    && forall rule :: rule in m.rules <==> HasRule(spans, m.start, m.end, rule)
  }

  ghost predicate InSome(merged: seq<RedactionSpan>, p: int) {
    exists i :: 0 <= i < |merged| && merged[i].start <= p < merged[i].end
  }

  /** The merged spans are the maximal runs of covered positions, in order and never touching, each
      with the rules of the spans inside it. */
  ghost predicate MergeOf(spans: seq<RedactionSpan>, merged: seq<RedactionSpan>) {
    && Separated(merged)
    && (forall i :: 0 <= i < |merged| ==> RunWithRules(spans, merged[i]))
    && (forall p :: Covered(spans, p) ==> InSome(merged, p))
  }

  function Max(a: nat, b: nat): nat {
    if a < b then b else a
  }

  /** `BTreeSet::extend`. */
  function UnionRules(a: seq<Bytes>, b: seq<Bytes>): (r: seq<Bytes>)
    requires Ascending(a)
    ensures Ascending(r)
    ensures forall x :: x in r <==> x in a || x in b
    decreases |b|
  {
    if b == [] then a
    else
      assert b == [b[0]] + b[1..];
      UnionRules(InsertKey(a, b[0]), b[1..])
  }

  function MergeInto(merged: seq<RedactionSpan>, s: RedactionSpan): seq<RedactionSpan>
    requires forall m :: m in merged ==> Ascending(m.rules)
  {
    var n := |merged|;
    if n > 0 && s.start <= merged[n - 1].end then
      var last := merged[n - 1];
      merged[..n - 1] + [RedactionSpan(last.start, Max(last.end, s.end), UnionRules(last.rules, s.rules))]
    else merged + [s]
  }

  ghost predicate ProperSpan(s: RedactionSpan) {
    s.start < s.end && Ascending(s.rules)
  }

  /** `s` starts no earlier than any span before it. */
  ghost predicate Follows(spans: seq<RedactionSpan>, s: RedactionSpan) {
    ProperSpan(s) && forall t :: t in spans ==> ProperSpan(t) && t.start <= s.start
  }

  lemma CoveredNext(spans: seq<RedactionSpan>, s: RedactionSpan, p: int)
    ensures Covered(spans + [s], p) <==> Covered(spans, p) || s.start <= p < s.end
  {
    assert s in spans + [s];
    if Covered(spans, p) {
      var t :| t in spans && t.start <= p < t.end;
      assert t in spans + [s];
    }
  }

  lemma HasRuleNext(spans: seq<RedactionSpan>, s: RedactionSpan, start: int, end: int, rule: Bytes)
    ensures HasRule(spans + [s], start, end, rule)
       <==> HasRule(spans, start, end, rule) || (rule in s.rules && start <= s.start < end)
  {
    assert s in spans + [s];
    if HasRule(spans, start, end, rule) {
      var t :| t in spans && rule in t.rules && start <= t.start < end;
      assert t in spans + [s];
    }
  }

  /** A run that ends before the new span starts stays as it is. */
  lemma EarlierRunStays(spans: seq<RedactionSpan>, s: RedactionSpan, m: RedactionSpan)
    requires RunWithRules(spans, m) && m.end < s.start
    ensures RunWithRules(spans + [s], m)
  {
    forall p
      ensures Covered(spans + [s], p) <==> Covered(spans, p) || s.start <= p < s.end
    {
      CoveredNext(spans, s, p);
    }
    forall rule
      ensures HasRule(spans + [s], m.start, m.end, rule) <==> HasRule(spans, m.start, m.end, rule)
    {
      HasRuleNext(spans, s, m.start, m.end, rule);
    }
  }

  /** Covered positions lie before the end of the last merged span. */
  lemma CoveredBeforeEnd(spans: seq<RedactionSpan>, merged: seq<RedactionSpan>, p: int)
    requires MergeOf(spans, merged) && Covered(spans, p)
    ensures merged != [] && p < merged[|merged| - 1].end
  {
    assert InSome(merged, p);
    var i :| 0 <= i < |merged| && merged[i].start <= p < merged[i].end;
    if i < |merged| - 1 {
      assert merged[i].end < merged[|merged| - 1].start;
      assert RunWithRules(spans, merged[|merged| - 1]);
    }
  }

  lemma CoversStart(spans: seq<RedactionSpan>, t: RedactionSpan)
    requires t in spans && ProperSpan(t)
    ensures Covered(spans, t.start)
  {
  }

  /** A run starts where one of its spans starts. */
  lemma RunStart(spans: seq<RedactionSpan>, start: int, end: int) returns (t: RedactionSpan)
    requires IsRun(spans, start, end)
    ensures t in spans && t.start == start
  {
    assert Covered(spans, start);
    t :| t in spans && t.start <= start < t.end;
    assert t.start < start ==> Covered(spans, start - 1);
  }

  /** A new span that overlaps or touches the last merged one extends it. */
  lemma ExtendedRun(spans: seq<RedactionSpan>, merged: seq<RedactionSpan>, s: RedactionSpan)
    requires MergeOf(spans, merged) && Follows(spans, s)
    requires merged != [] && s.start <= merged[|merged| - 1].end
    ensures var last := merged[|merged| - 1];
            && last.start <= s.start && Ascending(last.rules)
            && RunWithRules(spans + [s],
                            RedactionSpan(last.start, Max(last.end, s.end), UnionRules(last.rules, s.rules)))
  {
    var last := merged[|merged| - 1];
    assert RunWithRules(spans, last);
    var first := RunStart(spans, last.start, last.end);
    var end := Max(last.end, s.end);
    forall p
      ensures Covered(spans + [s], p) <==> Covered(spans, p) || s.start <= p < s.end
      ensures Covered(spans, p) ==> p < last.end
    {
      CoveredNext(spans, s, p);
      if Covered(spans, p) {
        CoveredBeforeEnd(spans, merged, p);
      }
    }
    forall rule
      ensures HasRule(spans + [s], last.start, end, rule) <==> rule in last.rules || rule in s.rules
    {
      HasRuleNext(spans, s, last.start, end, rule);
      if HasRule(spans, last.start, end, rule) {
        var t :| t in spans && rule in t.rules && last.start <= t.start < end;
        assert Covered(spans, t.start);
      }
    }
  }

  /** A new span that starts beyond the last merged one is a run of its own. */
  lemma NewRun(spans: seq<RedactionSpan>, merged: seq<RedactionSpan>, s: RedactionSpan)
    requires MergeOf(spans, merged) && Follows(spans, s)
    requires merged != [] ==> merged[|merged| - 1].end < s.start
    ensures RunWithRules(spans + [s], s)
  {
    forall p
      ensures Covered(spans + [s], p) <==> Covered(spans, p) || s.start <= p < s.end
      ensures p >= s.start - 1 ==> !Covered(spans, p)
    {
      CoveredNext(spans, s, p);
      if Covered(spans, p) {
        CoveredBeforeEnd(spans, merged, p);
      }
    }
    forall rule
      ensures HasRule(spans + [s], s.start, s.end, rule) <==> rule in s.rules
    {
      HasRuleNext(spans, s, s.start, s.end, rule);
      if HasRule(spans, s.start, s.end, rule) {
        var t :| t in spans && rule in t.rules && s.start <= t.start < s.end;
        CoversStart(spans, t);
      }
    }
  }

  lemma InSomeNext(spans: seq<RedactionSpan>, merged: seq<RedactionSpan>, s: RedactionSpan, p: int)
    requires MergeOf(spans, merged) && Covered(spans + [s], p)
    ensures InSome(merged + [s], p)
  {
    var next := merged + [s];
    CoveredNext(spans, s, p);
    if Covered(spans, p) {
      var i :| 0 <= i < |merged| && merged[i].start <= p < merged[i].end;
      assert next[i] == merged[i];
    } else {
      assert next[|merged|] == s;
    }
  }

  lemma AppendKeepsMerge(spans: seq<RedactionSpan>, merged: seq<RedactionSpan>, s: RedactionSpan)
    requires MergeOf(spans, merged) && Follows(spans, s)
    requires merged != [] ==> merged[|merged| - 1].end < s.start
    ensures MergeOf(spans + [s], merged + [s])
  {
    NewRun(spans, merged, s);
    forall i | 0 <= i < |merged|
      ensures merged[i].end < s.start && RunWithRules(spans + [s], merged[i])
    {
      LastEndsLast(spans, merged, i);
      EarlierRunStays(spans, s, merged[i]);
    }
    forall p | Covered(spans + [s], p)
      ensures InSome(merged + [s], p)
    {
      InSomeNext(spans, merged, s, p);
    }
  }

  lemma LastEndsLast(spans: seq<RedactionSpan>, merged: seq<RedactionSpan>, i: nat)
    requires MergeOf(spans, merged) && i < |merged|
    ensures merged[i].end <= merged[|merged| - 1].end
    ensures i < |merged| - 1 ==> merged[i].end < merged[|merged| - 1].start
  {
    assert RunWithRules(spans, merged[|merged| - 1]);
  }

  lemma ExtendKeepsMerge(spans: seq<RedactionSpan>, merged: seq<RedactionSpan>, s: RedactionSpan)
    requires MergeOf(spans, merged) && Follows(spans, s)
    requires merged != [] && s.start <= merged[|merged| - 1].end
    ensures Ascending(merged[|merged| - 1].rules)
    ensures var last := merged[|merged| - 1];
            var m := RedactionSpan(last.start, Max(last.end, s.end), UnionRules(last.rules, s.rules));
            MergeOf(spans + [s], merged[..|merged| - 1] + [m])
  {
    var n := |merged| - 1;
    ExtendedRun(spans, merged, s);
    var last := merged[n];
    var m := RedactionSpan(last.start, Max(last.end, s.end), UnionRules(last.rules, s.rules));
    var next := merged[..n] + [m];
    forall i | 0 <= i < n
      ensures merged[i].end < m.start && RunWithRules(spans + [s], merged[i])
    {
      LastEndsLast(spans, merged, i);
      EarlierRunStays(spans, s, merged[i]);
    }
    forall p | Covered(spans + [s], p)
      ensures InSome(next, p)
    {
      CoveredNext(spans, s, p);
      ExtendCovers(merged, m, p);
    }
  }

  lemma ExtendCovers(merged: seq<RedactionSpan>, m: RedactionSpan, p: int)
    requires merged != [] && m.start == merged[|merged| - 1].start && m.end >= merged[|merged| - 1].end
    requires InSome(merged, p) || m.start <= p < m.end
    ensures InSome(merged[..|merged| - 1] + [m], p)
  {
    var next := merged[..|merged| - 1] + [m];
    assert next[|merged| - 1] == m;
    if InSome(merged, p) {
      var i :| 0 <= i < |merged| && merged[i].start <= p < merged[i].end;
      assert next[i].start <= p < next[i].end;
    }
  }

  lemma MergeStep(spans: seq<RedactionSpan>, merged: seq<RedactionSpan>, s: RedactionSpan)
    requires MergeOf(spans, merged) && Follows(spans, s)
    ensures forall m :: m in merged ==> Ascending(m.rules)
    ensures MergeOf(spans + [s], MergeInto(merged, s))
  {
    forall m | m in merged
      ensures Ascending(m.rules)
    {
      var i :| 0 <= i < |merged| && merged[i] == m;
      assert RunWithRules(spans, merged[i]);
    }
    if merged != [] && s.start <= merged[|merged| - 1].end {
      ExtendKeepsMerge(spans, merged, s);
    } else {
      AppendKeepsMerge(spans, merged, s);
    }
  }

  /** Two maximal runs that meet are the same. */
  lemma RunsAgree(spans: seq<RedactionSpan>, a: int, b: int, c: int, d: int)
    requires IsRun(spans, a, b) && IsRun(spans, c, d) && a < d && c < b
    ensures a == c && b == d
  {
    assert a < c ==> Covered(spans, c - 1);
    assert c < a ==> Covered(spans, a - 1);
    assert b < d ==> Covered(spans, b);
    assert d < b ==> Covered(spans, d);
  }

  lemma FindRun(spans: seq<RedactionSpan>, merged: seq<RedactionSpan>, m: RedactionSpan) returns (i: nat)
    requires MergeOf(spans, merged) && RunWithRules(spans, m)
    ensures i < |merged| && merged[i] == m
  {
    assert Covered(spans, m.start);
    assert InSome(merged, m.start);
    i :| 0 <= i < |merged| && merged[i].start <= m.start < merged[i].end;
    assert RunWithRules(spans, merged[i]);
    RunsAgree(spans, m.start, m.end, merged[i].start, merged[i].end);
    AscendingUnique(m.rules, merged[i].rules);
  }

  lemma SeparatedOrder(merged: seq<RedactionSpan>, i: nat, j: nat)
    requires Separated(merged) && i < |merged| && j < |merged|
    requires merged[i].start < merged[i].end && merged[j].start < merged[j].end
    ensures merged[i].start < merged[j].start <==> i < j
  {
  }

  /** The merge is determined by which positions are covered and by which rules. */
  lemma {:induction false} MergeUnique(spans: seq<RedactionSpan>, a: seq<RedactionSpan>, b: seq<RedactionSpan>, n: nat)
    requires MergeOf(spans, a) && MergeOf(spans, b) && n < |a|
    ensures n < |b| && a[n] == b[n]
  {
    assert RunWithRules(spans, a[n]);
    var i := FindRun(spans, b, a[n]);
    if n > 0 {
      MergeUnique(spans, a, b, n - 1);
      assert RunWithRules(spans, a[n - 1]) && RunWithRules(spans, b[i]);
      SeparatedOrder(a, n - 1, n);
      SeparatedOrder(b, n - 1, i);
    }
    assert RunWithRules(spans, b[n]);
    var j := FindRun(spans, a, b[n]);
    if n > 0 {
      SeparatedOrder(b, n - 1, n);
      SeparatedOrder(a, n - 1, j);
    }
    SeparatedOrder(a, n, j);
    SeparatedOrder(b, n, i);
  }
}
