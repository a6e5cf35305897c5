/** Rewriting the text: the weave of kept bytes and replacement tokens, and the whole of
    `sanitize_with` in `collect-diff-context-cli/src/secret_scan.rs`. */
module Sanitizer {
  import opened ByteStrings
  import opened Sorting
  import opened Summaries
  import opened FindingSpans
  import opened Redaction
  import Utf8

  // ---------------------------------------------------------------- newlines

  function CountNewlines(s: Bytes): nat {
    if s == [] then 0 else (if s[0] == NEWLINE then 1 else 0) + CountNewlines(s[1..])
  }

  lemma {:induction false} CountConcat(a: Bytes, b: Bytes)
    ensures CountNewlines(a + b) == CountNewlines(a) + CountNewlines(b)
  {
    if a == [] {
      assert a + b == b;
    } else {
      CountConcat(a[1..], b);
      assert (a + b)[1..] == a[1..] + b;
    }
  }

  lemma {:induction false} CountNone(s: Bytes)
    requires NEWLINE !in s
    ensures CountNewlines(s) == 0
  {
    if s != [] {
      CountNone(s[1..]);
    }
  }

  lemma {:induction false} CountRepeated(n: nat)
    ensures CountNewlines(Repeat(NEWLINE, n)) == n
  {
    if n > 0 {
      CountRepeated(n - 1);
      assert Repeat(NEWLINE, n)[1..] == Repeat(NEWLINE, n - 1);
    }
  }

  lemma CountSplit(s: Bytes, lo: nat, mid: nat, hi: nat)
    requires lo <= mid <= hi <= |s|
    ensures CountNewlines(s[lo..hi]) == CountNewlines(s[lo..mid]) + CountNewlines(s[mid..hi])
  {
    CountConcat(s[lo..mid], s[mid..hi]);
    assert s[lo..hi] == s[lo..mid] + s[mid..hi];
  }

  // ---------------------------------------------------------------- the weave

  function JoinRules(rules: seq<Bytes>): Bytes {
    if rules == [] then []
    else if |rules| == 1 then rules[0]
    else rules[0] + [PLUS] + JoinRules(rules[1..])
  }

  /** The replacement for one merged span: its rules, then one newline for each one replaced. */
  function Token(input: Bytes, m: RedactionSpan): Bytes
    requires m.start <= m.end <= |input|
  {
    TOKEN_OPEN + JoinRules(m.rules) + [TOKEN_CLOSE] + Repeat(NEWLINE, CountNewlines(input[m.start..m.end]))
  }

  /** The spans lie in the text after `from`, one strictly after the other. */
  predicate Chain(input: Bytes, merged: seq<RedactionSpan>, from: nat)
    decreases |merged|
  {
    if merged == [] then from <= |input|
    else
      && from <= merged[0].start < merged[0].end <= |input|
      && Chain(input, merged[1..], merged[0].end)
  }

  /** From `from` on: the kept bytes in order, with each span replaced by its token. */
  function Weave(input: Bytes, merged: seq<RedactionSpan>, from: nat): Bytes
    requires Chain(input, merged, from)
    decreases |merged|
  {
    if merged == [] then input[from..]
    else input[from..merged[0].start] + Token(input, merged[0]) + Weave(input, merged[1..], merged[0].end)
  }

  lemma WeaveAfter(input: Bytes, merged: seq<RedactionSpan>, from: nat, to: nat)
    requires Chain(input, merged, from) && from <= to <= |input| && (merged != [] ==> to <= merged[0].start)
    ensures Chain(input, merged, to)
    ensures Weave(input, merged, from) == input[from..to] + Weave(input, merged, to)
  {
    if merged == [] {
      assert input[from..] == input[from..to] + input[to..];
    } else {
      var m := merged[0];
      assert input[from..m.start] == input[from..to] + input[to..m.start];
      FourPieces(input[from..to], input[to..m.start], Token(input, m), Weave(input, merged[1..], m.end));
    }
  }

  lemma FourPieces(a: Bytes, b: Bytes, c: Bytes, d: Bytes)
    ensures a + b + c + d == a + (b + c + d)
  {
  }

  ghost predicate OnBoundaries(input: Bytes, m: RedactionSpan) {
    Utf8.IsCharBoundary(input, m.start) && Utf8.IsCharBoundary(input, m.end)
  }

  /** Rewriting a later part of the text does not move the boundaries of an earlier span. */
  lemma BoundariesUnmoved(input: Bytes, rest: seq<RedactionSpan>, m: RedactionSpan)
    requires Chain(input, [m] + rest, 0) && (rest != [] ==> m.end < rest[0].start)
    ensures Chain(input, rest, 0)
    ensures var content := Weave(input, rest, 0);
            && m.end <= |content| && content[..m.end] == input[..m.end]
            && content[m.end..] == Weave(input, rest, m.end)
            && (Utf8.IsCharBoundary(content, m.start) && Utf8.IsCharBoundary(content, m.end)
                <==> OnBoundaries(input, m))
  {
    assert ([m] + rest)[1..] == rest;
    if rest != [] {
      assert Chain(input, rest, m.end);
      WeaveAfter(input, rest, 0, m.end + 1);
      assert Weave(input, rest, 0)[m.end] == input[m.end];
    }
    WeaveAfter(input, rest, 0, m.end);
  }

  /** Replacing one span in the rewritten rest weaves that span in. */
  lemma ReplaceRange(input: Bytes, rest: seq<RedactionSpan>, m: RedactionSpan)
    requires Chain(input, [m] + rest, 0) && (rest != [] ==> m.end < rest[0].start)
    ensures Chain(input, rest, 0) && m.end <= |Weave(input, rest, 0)|
    ensures var content := Weave(input, rest, 0);
            content[..m.start] + Token(input, m) + content[m.end..] == Weave(input, [m] + rest, 0)
  {
    BoundariesUnmoved(input, rest, m);
    assert ([m] + rest)[1..] == rest;
    var content := Weave(input, rest, 0);
    assert content[..m.start] == content[..m.end][..m.start];
    assert input[0..m.start] == input[..m.end][..m.start];
  }

  lemma {:induction false} ChainTail(input: Bytes, merged: seq<RedactionSpan>)
    requires Chain(input, merged, 0)
    ensures forall k :: 0 <= k <= |merged| ==> Chain(input, merged[k..], 0)
    decreases |merged|
  {
    assert merged[0..] == merged;
    if merged != [] {
      var rest := merged[1..];
      ChainFromZero(input, rest, merged[0].end);
      ChainTail(input, rest);
      forall k | 0 < k <= |merged|
        ensures Chain(input, merged[k..], 0)
      {
        assert merged[k..] == rest[k - 1..];
      }
    }
  }

  lemma ChainFromZero(input: Bytes, merged: seq<RedactionSpan>, from: nat)
    requires Chain(input, merged, from)
    ensures Chain(input, merged, 0)
  {
  }

  /** One round of the loop below: the left ends of the text are where they were. */
  lemma RewriteRound(input: Bytes, merged: seq<RedactionSpan>, k: nat)
    requires k < |merged| && Separated(merged) && Chain(input, merged[k..], 0)
    ensures Chain(input, merged[k + 1..], 0)
    ensures var content, m := Weave(input, merged[k + 1..], 0), merged[k];
            && m.start <= m.end <= |content|
            && (Utf8.IsCharBoundary(content, m.start) && Utf8.IsCharBoundary(content, m.end)
                <==> OnBoundaries(input, m))
            && content[..m.start] + Token(input, m) + content[m.end..] == Weave(input, merged[k..], 0)
  {
    var rest := merged[k + 1..];
    assert merged[k..] == [merged[k]] + rest;
    BoundariesUnmoved(input, rest, merged[k]);
    ReplaceRange(input, rest, merged[k]);
  }

  /** Replaces the spans from right to left. */
  method Rewrite(input: Bytes, merged: seq<RedactionSpan>) returns (r: Result<Bytes, SpanError>)
    requires Chain(input, merged, 0) && Separated(merged)
    ensures (forall m :: m in merged ==> OnBoundaries(input, m)) ==> r == Ok(Weave(input, merged, 0))
    ensures (exists m :: m in merged && !OnBoundaries(input, m)) ==> r == Err(InvalidLocation)
  {
    var content := input;
    ChainTail(input, merged);
    assert Weave(input, [], 0) == input;
    assert merged[|merged|..] == [];
    for k := |merged| downto 0
      invariant Chain(input, merged[k..], 0)
      invariant content == Weave(input, merged[k..], 0)
      invariant forall i :: k <= i < |merged| ==> OnBoundaries(input, merged[i])
    {
      var span := merged[k];
      RewriteRound(input, merged, k);
      if !Utf8.IsCharBoundary(content, span.start) || !Utf8.IsCharBoundary(content, span.end) {
        return Err(InvalidLocation);
      }
      content := content[..span.start] + Token(input, span) + content[span.end..];
    }
    assert merged[0..] == merged;
    r := Ok(content);
  }

  // ---------------------------------------------------------------- surviving bytes keep their lines

  ghost predicate NamedRules(m: RedactionSpan) {
    forall rule :: rule in m.rules ==> IsRuleName(rule)
  }

  lemma {:induction false} JoinedHasNoNewline(rules: seq<Bytes>)
    requires forall rule :: rule in rules ==> IsRuleName(rule)
    ensures NEWLINE !in JoinRules(rules)
  {
    if rules != [] {
      assert IsRuleName(rules[0]);
      JoinedHasNoNewline(rules[1..]);
    }
  }

  /** A token has as many newlines as the text it replaces. */
  lemma TokenNewlines(input: Bytes, m: RedactionSpan)
    requires m.start <= m.end <= |input| && NamedRules(m)
    ensures CountNewlines(Token(input, m)) == CountNewlines(input[m.start..m.end])
  {
    var n := CountNewlines(input[m.start..m.end]);
    var text := TOKEN_OPEN + JoinRules(m.rules) + [TOKEN_CLOSE];
    JoinedHasNoNewline(m.rules);
    CountNone(text);
    CountRepeated(n);
    CountConcat(text, Repeat(NEWLINE, n));
  }

  /** Where the byte at `p` ends up. */
  ghost function OutputIndex(input: Bytes, merged: seq<RedactionSpan>, from: nat, p: nat): nat
    requires Chain(input, merged, from) && from <= p
    decreases |merged|
  {
    if merged == [] || p < merged[0].end then p - from
    else
      merged[0].start - from + |Token(input, merged[0])| + OutputIndex(input, merged[1..], merged[0].end, p)
  }

  ghost predicate Survives(merged: seq<RedactionSpan>, p: nat) {
    forall m :: m in merged ==> !(m.start <= p < m.end)
  }

  lemma CutConcat(a: Bytes, b: Bytes, k: nat)
    requires k <= |b|
    ensures (a + b)[..|a| + k] == a + b[..k]
    ensures k < |b| ==> (a + b)[|a| + k] == b[k]
  {
  }

  /** Every byte outside all spans is in the output, after as many newlines as before. */
  lemma {:induction false} SurvivorKeepsLine(input: Bytes, merged: seq<RedactionSpan>, from: nat, p: nat)
    requires Chain(input, merged, from) && from <= p < |input| && Survives(merged, p)
    requires forall m :: m in merged ==> NamedRules(m)
    ensures var out, q := Weave(input, merged, from), OutputIndex(input, merged, from, p);
            q < |out| && out[q] == input[p] && CountNewlines(out[..q]) == CountNewlines(input[from..p])
    decreases |merged|
  {
    var out := Weave(input, merged, from);
    if merged == [] || p < merged[0].start {
      WeaveAfter(input, merged, from, p + 1);
      assert out[..p - from] == input[from..p];
      assert out[p - from] == input[from..p + 1][p - from];
    } else {
      var m, rest := merged[0], merged[1..];
      assert m in merged;
      SurvivorKeepsLine(input, rest, m.end, p);
      var head, tail := input[from..m.start] + Token(input, m), Weave(input, rest, m.end);
      var k := OutputIndex(input, rest, m.end, p);
      assert out == head + tail;
      CutConcat(head, tail, k);
      CountConcat(head, tail[..k]);
      HeadNewlines(input, from, m);
      CountSplit(input, from, m.end, p);
    }
  }

  lemma HeadNewlines(input: Bytes, from: nat, m: RedactionSpan)
    requires from <= m.start <= m.end <= |input| && NamedRules(m)
    ensures CountNewlines(input[from..m.start] + Token(input, m)) == CountNewlines(input[from..m.end])
  {
    CountConcat(input[from..m.start], Token(input, m));
    TokenNewlines(input, m);
    CountSplit(input, from, m.start, m.end);
  }

  /** Surviving bytes keep their order. */
  lemma {:induction false} SurvivorsKeepOrder(input: Bytes, merged: seq<RedactionSpan>, from: nat, p: nat, q: nat)
    requires Chain(input, merged, from) && from <= p < q < |input| && Survives(merged, p) && Survives(merged, q)
    ensures OutputIndex(input, merged, from, p) < OutputIndex(input, merged, from, q)
    decreases |merged|
  {
    if merged != [] && p >= merged[0].end {
      SurvivorsKeepOrder(input, merged[1..], merged[0].end, p, q);
    } else if merged != [] {
      assert merged[0] in merged;
    }
  }

  // ---------------------------------------------------------------- the whole operation

  datatype ScanStatus = Clean | Redacted

  datatype SanitizedOutput = SanitizedOutput(content: Bytes, redactions: seq<RedactionSummary>, status: ScanStatus)

  /** `Scanner` carries whatever error the scanner itself reported. */
  datatype SanitizeError = Scanner(code: int) | BadLocation | RedactionVerification | ResidualFinding

  ghost predicate AllLocated(input: Bytes, findings: seq<Finding>) {
    forall i :: 0 <= i < |findings| ==> FindingSpan(input, findings[i]).Ok?
  }

  function SpanOf(input: Bytes, f: Finding): RedactionSpan
    requires FindingSpan(input, f).Ok?
  {
    var (start, end) := FindingSpan(input, f).value;
    RedactionSpan(start, end, [SanitizeRuleId(f.ruleId)])
  }

  function SummaryOf(f: Finding): RedactionSummary {
    RedactionSummary(SanitizeRuleId(f.ruleId), f.startLine, f.endLine)
  }

  ghost function SpansOf(input: Bytes, findings: seq<Finding>): (r: seq<RedactionSpan>)
    requires AllLocated(input, findings)
    ensures |r| == |findings|
    ensures forall i :: 0 <= i < |r| ==> r[i] == SpanOf(input, findings[i])
  {
    seq(|findings|, i requires 0 <= i < |findings| => SpanOf(input, findings[i]))
  }

  predicate SpanBefore(a: RedactionSpan, b: RedactionSpan) {
    a.start < b.start || (a.start == b.start && a.end < b.end)
  }

  /** `sort_by_key` on start and end. */
  function SortSpans(spans: seq<RedactionSpan>): (r: seq<RedactionSpan>)
    ensures InOrder(r, SpanBefore)
    ensures forall y :: y in r <==> y in spans
  {
    SortOrders(spans, SpanBefore);
    SortKeepsMembers(spans, SpanBefore);
    Sort(spans, SpanBefore)
  }

  method MergeSpans(spans: seq<RedactionSpan>) returns (merged: seq<RedactionSpan>)
    requires InOrder(spans, SpanBefore) && forall s :: s in spans ==> ProperSpan(s)
    ensures MergeOf(spans, merged)
  {
    merged := [];
    for n := 0 to |spans|
      invariant MergeOf(spans[..n], merged)
    {
      var span := spans[n];
      assert spans[..n + 1] == spans[..n] + [span];
      forall t | t in spans[..n]
        ensures ProperSpan(t) && t.start <= span.start
      {
        assert t in spans;
      }
      MergeStep(spans[..n], merged, span);
      if |merged| > 0 && span.start <= merged[|merged| - 1].end {
        var last := merged[|merged| - 1];
        var wider := RedactionSpan(last.start, Max(last.end, span.end), UnionRules(last.rules, span.rules));
        merged := merged[|merged| - 1 := wider];
        assert merged == merged[..|merged| - 1] + [merged[|merged| - 1]];
      } else {
        merged := merged + [span];
      }
    }
    assert spans[..|spans|] == spans;
  }

  /** What the sanitizer returns once the text has been rewritten. */
  ghost function Verdict(content: Bytes, summaries: seq<RedactionSummary>,
                         rescan: Result<seq<Finding>, int>): Result<SanitizedOutput, SanitizeError>
  {
    if rescan.Err? then Err(RedactionVerification)
    else if rescan.value != [] then Err(ResidualFinding)
    else Ok(SanitizedOutput(content, Dedup(SortSummaries(summaries)), Redacted))
  }

  ghost function SummariesOf(findings: seq<Finding>): seq<RedactionSummary> {
    seq(|findings|, i requires 0 <= i < |findings| => SummaryOf(findings[i]))
  }

  /** The merged spans of located findings, as the text is rewritten with them. */
  ghost predicate Redacts(input: Bytes, findings: seq<Finding>, merged: seq<RedactionSpan>)
    requires AllLocated(input, findings)
  {
    MergeOf(SpansOf(input, findings), merged) && Chain(input, merged, 0) && forall m :: m in merged ==> NamedRules(m)
  }

  /** The loop over the findings. */
  ghost predicate LocatedSoFar(
    input: Bytes, findings: seq<Finding>, n: nat, spans: seq<RedactionSpan>, summaries: seq<RedactionSummary>)
    requires n <= |findings|
  {
    && |spans| == |summaries| == n
    && (forall i :: 0 <= i < n ==> FindingSpan(input, findings[i]).Ok? && spans[i] == SpanOf(input, findings[i]))
    && (forall i :: 0 <= i < n ==> summaries[i] == SummaryOf(findings[i]))
  }

  lemma LocatedNext(
    input: Bytes, findings: seq<Finding>, n: nat, spans: seq<RedactionSpan>, summaries: seq<RedactionSummary>)
    requires n < |findings| && LocatedSoFar(input, findings, n, spans, summaries) && FindingSpan(input, findings[n]).Ok?
    ensures LocatedSoFar(input, findings, n + 1,
                         spans + [SpanOf(input, findings[n])], summaries + [SummaryOf(findings[n])])
  {
    var more, others := spans + [SpanOf(input, findings[n])], summaries + [SummaryOf(findings[n])];
    forall i | 0 <= i < n
      ensures more[i] == spans[i] && others[i] == summaries[i]
    {
    }
  }

  lemma LocatedAll(input: Bytes, findings: seq<Finding>, spans: seq<RedactionSpan>, summaries: seq<RedactionSummary>)
    requires LocatedSoFar(input, findings, |findings|, spans, summaries)
    ensures AllLocated(input, findings) && spans == SpansOf(input, findings) && summaries == SummariesOf(findings)
  {
  }

  method Locate(input: Bytes, findings: seq<Finding>)
    returns (r: Result<(seq<RedactionSpan>, seq<RedactionSummary>), SpanError>)
    ensures r.Ok? <==> AllLocated(input, findings)
    ensures r.Ok? ==> r.value == (SpansOf(input, findings), SummariesOf(findings))
  {
    var spans: seq<RedactionSpan> := [];
    var summaries: seq<RedactionSummary> := [];
    for n := 0 to |findings|
      invariant LocatedSoFar(input, findings, n, spans, summaries)
    {
      var finding := findings[n];
      var ruleId := SanitizeRuleId(finding.ruleId);
      var span := FindingSpan(input, finding);
      if span.Err? {
        return Err(span.error);
      }
      LocatedNext(input, findings, n, spans, summaries);
      spans := spans + [RedactionSpan(span.value.0, span.value.1, [ruleId])];
      summaries := summaries + [RedactionSummary(ruleId, finding.startLine, finding.endLine)];
    }
    LocatedAll(input, findings, spans, summaries);
    r := Ok((spans, summaries));
  }

  method SanitizeWith(input: Bytes, report: Result<seq<Finding>, int>, rescan: Bytes -> Result<seq<Finding>, int>)
    returns (r: Result<SanitizedOutput, SanitizeError>)
    requires Utf8.Valid(input)
    ensures report.Err? ==> r == Err(Scanner(report.error))
    ensures report == Ok([]) ==> r == Ok(SanitizedOutput(input, [], Clean))
    ensures report.Ok? && !AllLocated(input, report.value) ==> r == Err(BadLocation)
    ensures report.Ok? && report.value != [] && AllLocated(input, report.value) ==>
      exists merged :: Redacts(input, report.value, merged)
        && r == Verdict(Weave(input, merged, 0), SummariesOf(report.value), rescan(Weave(input, merged, 0)))
  {
    if report.Err? {
      return Err(Scanner(report.error));
    }
    var findings := report.value;
    if |findings| == 0 {
      return Ok(SanitizedOutput(input, [], Clean));
    }
    var located := Locate(input, findings);
    if located.Err? {
      return Err(BadLocation);
    }
    var (spans, summaries) := located.value;
    SpansAreProper(input, findings);
    var merged := MergeSpans(SortSpans(spans));
    MergeIsUsable(input, findings, SortSpans(spans), merged);
    var rewritten := Rewrite(input, merged);
    if rewritten.Err? {
      return Err(BadLocation);
    }
    var residual := rescan(rewritten.value);
    if residual.Err? {
      return Err(RedactionVerification);
    }
    if |residual.value| != 0 {
      return Err(ResidualFinding);
    }
    r := Ok(SanitizedOutput(rewritten.value, Dedup(SortSummaries(summaries)), Redacted));
  }

  ghost predicate GoodSpan(input: Bytes, s: RedactionSpan) {
    ProperSpan(s) && s.end <= |input| && OnBoundaries(input, s) && NamedRules(s)
  }

  lemma SpansAreProper(input: Bytes, findings: seq<Finding>)
    requires Utf8.Valid(input) && AllLocated(input, findings)
    ensures forall s :: s in SpansOf(input, findings) ==> GoodSpan(input, s)
  {
    var spans := SpansOf(input, findings);
    forall i | 0 <= i < |spans|
      ensures GoodSpan(input, spans[i])
    {
      SpanIsTheMatch(input, findings[i]);
      SanitizedRuleName(findings[i].ruleId);
    }
  }

  /** Merging in sorted order is merging the spans themselves, and every merged span is inside the
      text, on character boundaries, and made of proper rule names. */
  lemma MergeIsUsable(input: Bytes, findings: seq<Finding>, sorted: seq<RedactionSpan>, merged: seq<RedactionSpan>)
    requires Utf8.Valid(input) && AllLocated(input, findings)
    requires (forall s :: s in sorted <==> s in SpansOf(input, findings)) && MergeOf(sorted, merged)
    ensures Redacts(input, findings, merged)
    ensures forall m :: m in merged ==> OnBoundaries(input, m)
  {
    var spans := SpansOf(input, findings);
    SpansAreProper(input, findings);
    SameMerge(sorted, spans, merged);
    forall i | 0 <= i < |merged|
      ensures GoodSpan(input, merged[i])
    {
      var first := RunStart(spans, merged[i].start, merged[i].end);
      var last := RunEnd(spans, merged[i].start, merged[i].end);
      assert GoodSpan(input, first) && GoodSpan(input, last);
      forall rule | rule in merged[i].rules
        ensures IsRuleName(rule)
      {
        assert HasRule(spans, merged[i].start, merged[i].end, rule);
      }
    }
    MergedChain(input, merged, 0, 0);
  }

  lemma SameMerge(a: seq<RedactionSpan>, b: seq<RedactionSpan>, merged: seq<RedactionSpan>)
    requires (forall s :: s in a <==> s in b) && MergeOf(a, merged)
    ensures MergeOf(b, merged)
  {
    assert forall p :: Covered(a, p) <==> Covered(b, p);
    assert forall start, end, rule :: HasRule(a, start, end, rule) <==> HasRule(b, start, end, rule);
    forall i | 0 <= i < |merged|
      ensures RunWithRules(b, merged[i])
    {
      assert RunWithRules(a, merged[i]);
    }
  }

  /** A run ends where one of its spans ends. */
  lemma RunEnd(spans: seq<RedactionSpan>, start: int, end: int) returns (t: RedactionSpan)
    requires IsRun(spans, start, end)
    ensures t in spans && t.end == end
  {
    assert Covered(spans, end - 1);
    t :| t in spans && t.start <= end - 1 < t.end;
    assert t.end > end ==> Covered(spans, end);
  }

  lemma {:induction false} MergedChain(input: Bytes, merged: seq<RedactionSpan>, k: nat, from: nat)
    requires Separated(merged) && (forall i :: 0 <= i < |merged| ==> GoodSpan(input, merged[i]))
    requires k <= |merged| && from <= |input| && (k < |merged| ==> from <= merged[k].start)
    ensures Chain(input, merged[k..], from)
    ensures k == 0 ==> Chain(input, merged, from)
    decreases |merged| - k
  {
    if k < |merged| {
      MergedChain(input, merged, k + 1, merged[k].end);
      assert merged[k..][1..] == merged[k + 1..];
    }
    assert merged[0..] == merged;
  }

  // ---------------------------------------------------------------- a report with equal summaries

  /** "ab", a newline, "a". */
  const TWO_LINES: Bytes := [97, 98, 10, 97]

  /** One rule: "a" and "b" on line 1, and between them the whole text from line 1 to line 2. */
  function ThreeFindings(ruleId: Utf8.Text): seq<Finding> {
    Utf8.AsciiChars([97]);
    Utf8.AsciiChars([98]);
    Utf8.AsciiChars(TWO_LINES);
    [Finding(ruleId, 1, 1, 1, 1, [97]), Finding(ruleId, 1, 2, 1, 1, TWO_LINES), Finding(ruleId, 1, 1, 2, 2, [98])]
  }

  lemma LinesOfTwo()
    ensures Utf8.Valid(TWO_LINES) && LineStartsOf(TWO_LINES) == [0, 3]
  {
    Utf8.AsciiChars(TWO_LINES);
    assert StartsAfter(TWO_LINES, 3) == [] && StartsAfter(TWO_LINES, 2) == [3];
    assert StartsAfter(TWO_LINES, 1) == [3] && StartsAfter(TWO_LINES, 0) == [3];
  }

  lemma LocatedInTwo(f: Finding, at: nat)
    requires f.startLine == 1 && 1 <= f.endLine <= 2 && f.startColumn > 0 && f.endColumn > 0 && f.matched != []
    requires OccursAt(TWO_LINES, f.matched, at) && at + |f.matched| <= if f.endLine == 1 then 2 else 4
    ensures FindingSpan(TWO_LINES, f).Ok?
  {
    LinesOfTwo();
    SpanFoundExactly(TWO_LINES, f);
  }

  lemma ThreeAreLocated(ruleId: Utf8.Text)
    ensures AllLocated(TWO_LINES, ThreeFindings(ruleId))
  {
    forall i | 0 <= i < 3
      ensures FindingSpan(TWO_LINES, ThreeFindings(ruleId)[i]).Ok?
    {
      LocatedInTwo(ThreeFindings(ruleId)[i], if i == 2 then 1 else 0);
    }
  }

  /** Both findings of line 1 have the same summary, and both summaries are in the output. */
  lemma EqualSummariesMaySurvive(ruleId: Utf8.Text)
    ensures AllLocated(TWO_LINES, ThreeFindings(ruleId))
    ensures var a, b := RedactionSummary(SanitizeRuleId(ruleId), 1, 1), RedactionSummary(SanitizeRuleId(ruleId), 1, 2);
            && SummariesOf(ThreeFindings(ruleId)) == [a, b, a]
            && Dedup(SortSummaries(SummariesOf(ThreeFindings(ruleId)))) == [a, b, a]
  {
    ThreeAreLocated(ruleId);
    EqualSummariesStayApart(SanitizeRuleId(ruleId));
  }
}
