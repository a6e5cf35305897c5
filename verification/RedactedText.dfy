/** What the redacted text says: the names in its tokens, where the tokens stand, and which findings they
    stand for. The text is the one that `sanitize_with` in `collect-diff-context-cli/src/secret_scan.rs`
    returns. */
module RedactedText {
  import opened ByteStrings
  import opened Sorting
  import opened Summaries
  import opened FindingSpans
  import opened Redaction
  import opened Sanitizer
  import Utf8

  // ---------------------------------------------------------------- rule names

  /** A letter, a digit, ".", "_" or "-". */
  predicate Allowed(c: int) {
    48 <= c <= 57 || 65 <= c <= 90 || 97 <= c <= 122 || c == 46 || c == 95 || c == 45
  }

  /** The name has one byte for each of the first 80 characters of the id: the character itself when it is
      allowed, and "_" otherwise. The empty id has the name "unknown-rule". */
  lemma RuleNameIs(ruleId: Utf8.Text)
    ensures ruleId == [] ==> SanitizeRuleId(ruleId) == Ascii("unknown-rule")
    ensures ruleId != [] ==>
              var chars, name := Utf8.Chars(ruleId), SanitizeRuleId(ruleId);
              && |name| == (if |chars| < 80 then |chars| else 80)
              && forall i :: 0 <= i < |name| ==> name[i] as int == if Allowed(chars[i]) then chars[i] else 95
  {
    assert UNKNOWN_RULE == Ascii("unknown-rule");
    if ruleId != [] {
      var chars := Utf8.Chars(ruleId);
      var kept := if |chars| > 80 then chars[..80] else chars;
      assert kept != [] && |SanitizeRuleId(ruleId)| == |kept|;
      assert forall i :: 0 <= i < |kept| ==> SanitizeRuleId(ruleId)[i] == RuleByte(kept[i]) && kept[i] == chars[i];
    }
  }

  /** An allowed id of at most 80 characters is its own name. */
  lemma AllowedNameIsKept(ruleId: Utf8.Text)
    requires 0 < |ruleId| <= 80 && forall b :: b in ruleId ==> Allowed(b)
    ensures SanitizeRuleId(ruleId) == ruleId
  {
    assert forall i :: 0 <= i < |ruleId| ==> ruleId[i] in ruleId;
    Utf8.AsciiChars(ruleId);
    RuleNameIs(ruleId);
  }

  lemma LongCharIsLarge(s: Bytes)
    requires Utf8.CharLen(s) > 1
    ensures Utf8.CodePoint(s) >= 0x80
  {
  }

  lemma {:induction false} AsciiCharsOnly(s: Bytes)
    requires Utf8.Valid(s) && forall c :: c in Utf8.Chars(s) ==> c < 0x80
    ensures Utf8.Chars(s) == s
  {
    if s != [] {
      assert Utf8.CodePoint(s) == Utf8.Chars(s)[0];
      assert Utf8.Chars(s)[0] in Utf8.Chars(s);
      if Utf8.CharLen(s) > 1 {
        LongCharIsLarge(s);
      }
      assert forall c :: c in Utf8.Chars(s[1..]) ==> c in Utf8.Chars(s);
      AsciiCharsOnly(s[1..]);
      assert s == [s[0]] + s[1..];
    }
  }

  lemma UnspoiledName(ruleId: Utf8.Text, name: Bytes)
    requires ruleId != [] && SanitizeRuleId(ruleId) == name && |name| < 80
    requires forall b :: b in name ==> Allowed(b) && b != 95
    ensures ruleId == name
  {
    var chars := Utf8.Chars(ruleId);
    RuleNameIs(ruleId);
    assert |chars| == |name|;
    forall i | 0 <= i < |chars|
      ensures chars[i] == name[i] as int && chars[i] < 0x80
    {
      assert name[i] in name;
    }
    AsciiCharsOnly(ruleId);
  }

  /** Only two ids have the name "unknown-rule". */
  lemma UnknownRuleExactly(ruleId: Utf8.Text)
    ensures SanitizeRuleId(ruleId) == Ascii("unknown-rule") <==> ruleId == [] || ruleId == Ascii("unknown-rule")
  {
    var name := Ascii("unknown-rule");
    assert forall b :: b in name ==> Allowed(b) && b != 95;
    if ruleId == [] {
      RuleNameIs(ruleId);
    } else if ruleId == name {
      AllowedNameIsKept(ruleId);
    } else if SanitizeRuleId(ruleId) == name {
      UnspoiledName(ruleId, name);
    }
  }

  // ---------------------------------------------------------------- tokens

  lemma {:induction false} SplitUndoesJoin(rules: seq<Bytes>)
    requires rules != [] && forall rule :: rule in rules ==> PLUS !in rule
    ensures Split(JoinRules(rules), PLUS) == rules
  {
    assert rules[0] in rules;
    if |rules| == 1 {
      assert IndexOf(rules[0], PLUS) == |rules[0]|;
    } else {
      SplitUndoesJoin(rules[1..]);
      SplitPiece(rules[0], PLUS, JoinRules(rules[1..]));
      assert rules == [rules[0]] + rules[1..];
    }
  }

  lemma {:induction false} JoinHasOnly(rules: seq<Bytes>, b: byte)
    requires b != PLUS && forall rule :: rule in rules ==> b !in rule
    ensures b !in JoinRules(rules)
  {
    if rules != [] {
      assert rules[0] in rules;
      JoinHasOnly(rules[1..], b);
    }
  }

  /** "[redacted:", the names, "]", and as many newlines as the replaced text has; the names have no "]", and
      cutting them at each "+" gives the rules. */
  ghost predicate IsToken(token: Bytes, names: Bytes, rules: seq<Bytes>, newlines: nat) {
    && token == Ascii("[redacted:") + names + Ascii("]") + Repeat(10, newlines)
    && 93 !in names && 10 !in names
    && Split(names, 43) == rules
  }

  lemma TokenSpells(input: Bytes, m: RedactionSpan)
    requires m.start <= m.end <= |input| && NamedRules(m) && m.rules != []
    ensures IsToken(Token(input, m), JoinRules(m.rules), m.rules, CountNewlines(input[m.start..m.end]))
  {
    assert TOKEN_OPEN == Ascii("[redacted:") && [TOKEN_CLOSE] == Ascii("]");
    forall rule | rule in m.rules
      ensures PLUS !in rule && TOKEN_CLOSE !in rule && NEWLINE !in rule
    {
      assert IsRuleName(rule);
    }
    SplitUndoesJoin(m.rules);
    JoinHasOnly(m.rules, TOKEN_CLOSE);
    JoinHasOnly(m.rules, NEWLINE);
  }

  function NewlinePlaces(s: Bytes): set<int> {
    set i | 0 <= i < |s| && s[i] == 10
  }

  lemma PlacesOfOneMore(s: Bytes, b: byte)
    ensures NewlinePlaces(s + [b]) == if b == 10 then NewlinePlaces(s) + {|s|} else NewlinePlaces(s)
  {
    assert forall i :: 0 <= i < |s| ==> (s + [b])[i] == s[i];
    assert (s + [b])[|s|] == b;
  }

  /** Newlines are counted by their places. */
  lemma {:induction false} NewlinesAreCounted(s: Bytes)
    ensures CountNewlines(s) == |NewlinePlaces(s)|
  {
    if s != [] {
      var front, b := s[..|s| - 1], s[|s| - 1];
      NewlinesAreCounted(front);
      PlacesOfOneMore(front, b);
      CountConcat(front, [b]);
      assert s == front + [b];
      assert [b][1..] == [] && CountNewlines([]) == 0;
    }
  }

  // ---------------------------------------------------------------- where the tokens stand

  function TokenIndex(input: Bytes, merged: seq<RedactionSpan>, from: nat, k: nat): nat
    requires Chain(input, merged, from) && k < |merged|
    decreases |merged|
  {
    merged[0].start - from
    + if k == 0 then 0 else |Token(input, merged[0])| + TokenIndex(input, merged[1..], merged[0].end, k - 1)
  }

  ghost predicate StandsAt(out: Bytes, token: Bytes, at: nat) {
    at + |token| <= |out| && out[at..at + |token|] == token
  }

  lemma {:induction false} SpanInChain(input: Bytes, merged: seq<RedactionSpan>, from: nat, k: nat)
    requires Chain(input, merged, from) && k < |merged|
    ensures from <= merged[k].start < merged[k].end <= |input|
    decreases |merged|
  {
    if k > 0 {
      SpanInChain(input, merged[1..], merged[0].end, k - 1);
    }
  }

  lemma StandsBehind(head: Bytes, tail: Bytes, token: Bytes, at: nat)
    requires StandsAt(tail, token, at)
    ensures StandsAt(head + tail, token, |head| + at)
    ensures (head + tail)[..|head| + at] == head + tail[..at]
  {
    var out := head + tail;
    assert out[|head| + at..|head| + at + |token|] == tail[at..at + |token|];
  }

  lemma StandsBetween(head: Bytes, token: Bytes, tail: Bytes)
    ensures StandsAt(head + token + tail, token, |head|)
    ensures (head + token + tail)[..|head|] == head
  {
    var out := head + token + tail;
    assert out[|head|..|head| + |token|] == token;
  }

  /** Behind the token of `m`, another token stands where it stood without it. */
  lemma LaterToken(input: Bytes, from: nat, m: RedactionSpan, tail: Bytes, token: Bytes, at: nat, start: nat)
    requires from <= m.start <= m.end <= start <= |input| && NamedRules(m)
    requires StandsAt(tail, token, at) && CountNewlines(tail[..at]) == CountNewlines(input[m.end..start])
    ensures var out := input[from..m.start] + Token(input, m) + tail;
            var place := m.start - from + |Token(input, m)| + at;
            StandsAt(out, token, place) && CountNewlines(out[..place]) == CountNewlines(input[from..start])
  {
    var head := input[from..m.start] + Token(input, m);
    StandsBehind(head, tail, token, at);
    CountConcat(head, tail[..at]);
    HeadNewlines(input, from, m);
    CountSplit(input, from, m.end, start);
  }

  /** Token `k` stands at this place, on the line on which its span starts. */
  ghost predicate TokenStandsAt(input: Bytes, merged: seq<RedactionSpan>, from: nat, k: nat, out: Bytes, at: nat)
    requires k < |merged| && from <= merged[k].start <= merged[k].end <= |input|
  {
    && StandsAt(out, Token(input, merged[k]), at)
    && CountNewlines(out[..at]) == CountNewlines(input[from..merged[k].start])
  }

  lemma FirstTokenStands(input: Bytes, merged: seq<RedactionSpan>, from: nat)
    requires Chain(input, merged, from) && merged != []
    ensures TokenStandsAt(input, merged, from, 0, Weave(input, merged, from), TokenIndex(input, merged, from, 0))
  {
    var m := merged[0];
    StandsBetween(input[from..m.start], Token(input, m), Weave(input, merged[1..], m.end));
  }

  lemma LaterTokenStands(input: Bytes, merged: seq<RedactionSpan>, from: nat, k: nat, tail: Bytes, at: nat)
    requires Chain(input, merged, from) && 0 < k < |merged| && NamedRules(merged[0])
    requires tail == Weave(input, merged[1..], merged[0].end)
    requires at == TokenIndex(input, merged[1..], merged[0].end, k - 1)
    requires merged[0].end <= merged[k].start <= merged[k].end <= |input|
    requires TokenStandsAt(input, merged[1..], merged[0].end, k - 1, tail, at)
    ensures TokenStandsAt(input, merged, from, k, Weave(input, merged, from), TokenIndex(input, merged, from, k))
  {
    assert merged[1..][k - 1] == merged[k];
    LaterToken(input, from, merged[0], tail, Token(input, merged[k]), at, merged[k].start);
  }

  /** The token of every merged span stands in the output, on the line on which the span starts. */
  lemma {:induction false} TokenStands(input: Bytes, merged: seq<RedactionSpan>, from: nat, k: nat)
    requires Chain(input, merged, from) && k < |merged| && forall i :: 0 <= i < |merged| ==> NamedRules(merged[i])
    ensures from <= merged[k].start < merged[k].end <= |input|
    ensures TokenStandsAt(input, merged, from, k, Weave(input, merged, from), TokenIndex(input, merged, from, k))
    decreases |merged|
  {
    SpanInChain(input, merged, from, k);
    if k == 0 {
      FirstTokenStands(input, merged, from);
    } else {
      var m, rest := merged[0], merged[1..];
      var tail, at := Weave(input, rest, m.end), TokenIndex(input, rest, m.end, k - 1);
      TokenStands(input, rest, m.end, k - 1);
      LaterTokenStands(input, merged, from, k, tail, at);
    }
  }

  // ---------------------------------------------------------------- nothing else is in the output

  function Removed(merged: seq<RedactionSpan>): nat
    requires forall m :: m in merged ==> m.start <= m.end
  {
    if merged == [] then 0
    else
      assert merged == [merged[0]] + merged[1..];
      merged[0].end - merged[0].start + Removed(merged[1..])
  }

  function Added(input: Bytes, merged: seq<RedactionSpan>): nat
    requires forall m :: m in merged ==> m.start <= m.end <= |input|
  {
    if merged == [] then 0
    else
      assert merged == [merged[0]] + merged[1..];
      |Token(input, merged[0])| + Added(input, merged[1..])
  }

  lemma ChainIsInside(input: Bytes, merged: seq<RedactionSpan>, from: nat)
    requires Chain(input, merged, from)
    ensures forall m :: m in merged ==> m.start <= m.end <= |input|
  {
    forall m | m in merged
      ensures m.start <= m.end <= |input|
    {
      var k :| 0 <= k < |merged| && merged[k] == m;
      SpanInChain(input, merged, from, k);
    }
  }

  /** The output is as long as the input without the spans and with the tokens. */
  lemma {:induction false} LengthIsKept(input: Bytes, merged: seq<RedactionSpan>, from: nat)
    requires Chain(input, merged, from)
    ensures forall m :: m in merged ==> m.start <= m.end <= |input|
    ensures |Weave(input, merged, from)| + Removed(merged) == |input| - from + Added(input, merged)
    decreases |merged|
  {
    ChainIsInside(input, merged, from);
    if merged != [] {
      assert merged == [merged[0]] + merged[1..];
      LengthIsKept(input, merged[1..], merged[0].end);
    }
  }

  // ---------------------------------------------------------------- findings and tokens

  /** The merged span covers the match of the finding and has its rule. */
  ghost predicate StandsFor(input: Bytes, m: RedactionSpan, f: Finding) {
    && FindingSpan(input, f).Ok?
    && m.start <= FindingSpan(input, f).value.0 && FindingSpan(input, f).value.1 <= m.end
    && SanitizeRuleId(f.ruleId) in m.rules
  }

  lemma InsideRun(spans: seq<RedactionSpan>, merged: seq<RedactionSpan>, s: RedactionSpan) returns (k: nat)
    requires MergeOf(spans, merged) && s in spans && s.start < s.end
    ensures k < |merged| && merged[k].start <= s.start && s.end <= merged[k].end
    ensures forall rule :: rule in s.rules ==> rule in merged[k].rules
  {
    assert Covered(spans, s.start);
    assert InSome(merged, s.start);
    var i :| 0 <= i < |merged| && merged[i].start <= s.start < merged[i].end;
    k := i;
    assert RunWithRules(spans, merged[k]);
    assert merged[k].end < s.end ==> Covered(spans, merged[k].end);
    forall rule | rule in s.rules
      ensures rule in merged[k].rules
    {
      assert HasRule(spans, merged[k].start, merged[k].end, rule);
    }
  }

  /** Every finding is covered by one of the tokens, which names its rule; and every rule that a token names
      is the rule of a finding that it covers. */
  lemma TokensStandForFindings(input: Bytes, findings: seq<Finding>, merged: seq<RedactionSpan>)
    requires Utf8.Valid(input) && AllLocated(input, findings) && Redacts(input, findings, merged)
    ensures forall f :: f in findings ==> exists m :: m in merged && StandsFor(input, m, f)
    ensures forall m, rule :: m in merged && rule in m.rules ==>
              exists f :: f in findings && StandsFor(input, m, f) && SanitizeRuleId(f.ruleId) == rule
    ensures forall m :: m in merged ==> m.rules != []
  {
    var spans := SpansOf(input, findings);
    forall f | f in findings
      ensures exists m :: m in merged && StandsFor(input, m, f)
    {
      var i :| 0 <= i < |findings| && findings[i] == f;
      SpanIsTheMatch(input, f);
      var k := InsideRun(spans, merged, spans[i]);
      assert SanitizeRuleId(f.ruleId) in spans[i].rules;
      assert StandsFor(input, merged[k], f);
    }
    forall m, rule | m in merged && rule in m.rules
      ensures exists f :: f in findings && StandsFor(input, m, f) && SanitizeRuleId(f.ruleId) == rule
    {
      var f := FindingOfRule(input, findings, merged, m, rule);
    }
    forall m | m in merged
      ensures m.rules != []
    {
      var first := RunStart(spans, m.start, m.end);
      assert first.rules[0] in first.rules;
      assert HasRule(spans, m.start, m.end, first.rules[0]);
    }
  }

  lemma FindingOfRule(input: Bytes, findings: seq<Finding>, merged: seq<RedactionSpan>, m: RedactionSpan, rule: Bytes)
    returns (f: Finding)
    requires Utf8.Valid(input) && AllLocated(input, findings) && Redacts(input, findings, merged)
    requires m in merged && rule in m.rules
    ensures f in findings && StandsFor(input, m, f) && SanitizeRuleId(f.ruleId) == rule
  {
    var spans := SpansOf(input, findings);
    assert RunWithRules(spans, m);
    assert HasRule(spans, m.start, m.end, rule);
    var s :| s in spans && rule in s.rules && m.start <= s.start < m.end;
    var i :| 0 <= i < |spans| && spans[i] == s;
    f := findings[i];
    SpanIsTheMatch(input, f);
    assert m.end < s.end ==> Covered(spans, m.end);
  }

  // ---------------------------------------------------------------- the verdict

  ghost predicate Summarizes(x: RedactionSummary, f: Finding) {
    x.ruleId == SanitizeRuleId(f.ruleId) && x.startLine == f.startLine && x.endLine == f.endLine
  }

  /** The summaries in order: by start line, then by rule. */
  ghost predicate SummariesInOrder(xs: seq<RedactionSummary>) {
    forall i, j :: 0 <= i < j < |xs| ==>
      xs[i].startLine < xs[j].startLine || (xs[i].startLine == xs[j].startLine && !Less(xs[j].ruleId, xs[i].ruleId))
  }

  lemma DedupKeepsOrder(xs: seq<RedactionSummary>)
    requires InOrder(xs, SummaryBefore)
    ensures InOrder(Dedup(xs), SummaryBefore)
  {
    if xs != [] {
      var n := |xs| - 1;
      DedupKeepsOrder(xs[..n]);
      forall y | y in Dedup(xs[..n])
        ensures !SummaryBefore(xs[n], y)
      {
        var i :| 0 <= i < n && xs[i] == y;
      }
    }
  }

  /** A rewritten text is returned exactly when the second scan finds nothing in it. With it come the
      summaries of the findings, each of them listed and none listed twice in a row, in order. */
  lemma VerdictSays(content: Bytes, findings: seq<Finding>, rescan: Result<seq<Finding>, int>)
    ensures var verdict := Verdict(content, SummariesOf(findings), rescan);
            && (rescan.Err? ==> verdict == Err(RedactionVerification))
            && (rescan.Ok? && rescan.value != [] ==> verdict == Err(ResidualFinding))
            && (rescan == Ok([]) ==>
                  && verdict.Ok? && verdict.value.content == content && verdict.value.status == Redacted
                  && (forall f :: f in findings ==> exists x :: x in verdict.value.redactions && Summarizes(x, f))
                  && (forall x :: x in verdict.value.redactions ==> exists f :: f in findings && Summarizes(x, f))
                  && SummariesInOrder(verdict.value.redactions)
                  && forall i :: 0 < i < |verdict.value.redactions| ==>
                       verdict.value.redactions[i] != verdict.value.redactions[i - 1])
  {
    if rescan == Ok([]) {
      var given := SummariesOf(findings);
      SortKeepsMembers(given, SummaryBefore);
      SummaryOrder();
      SortOrders(given, SummaryBefore);
      DedupKeepsOrder(SortSummaries(given));
      var xs := Dedup(SortSummaries(given));
      forall f | f in findings
        ensures exists x :: x in xs && Summarizes(x, f)
      {
        var i :| 0 <= i < |findings| && findings[i] == f;
        assert given[i] in xs && Summarizes(given[i], f);
      }
      forall x | x in xs
        ensures exists f :: f in findings && Summarizes(x, f)
      {
        var i :| 0 <= i < |given| && given[i] == x;
        assert findings[i] in findings && Summarizes(x, findings[i]);
      }
    }
  }
}
