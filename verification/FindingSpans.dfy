/** From a scanner's line and column report to a byte span:
    `finding_span` in `collect-diff-context-cli/src/secret_scan.rs`. */
module FindingSpans {
  import opened ByteStrings
  import Utf8

  const USIZE_MAX: nat := U64_MAX

  datatype Finding = Finding(ruleId: Utf8.Text, startLine: nat, endLine: nat, startColumn: nat,
                             endColumn: nat, matched: Utf8.Text)

  datatype SpanError = InvalidLocation

  // ---------------------------------------------------------------- lines

  /** Index 0, and every index that follows a newline inside the text. */
  ghost predicate StartsLine(input: Bytes, i: int) {
    i == 0 || (0 < i < |input| && input[i - 1] == NEWLINE)
  }

  /** The ascending list of all line starts between `from` (exclusive) and the end. */
  ghost predicate ListsLineStarts(input: Bytes, starts: seq<nat>, from: int) {
    && (forall i, j :: 0 <= i < j < |starts| ==> starts[i] < starts[j])
    && (forall i :: 0 <= i < |starts| ==> from < starts[i] && StartsLine(input, starts[i]))
    && (forall p: nat :: StartsLine(input, p) && from < p ==> p in starts)
  }

  method LineStarts(input: Bytes) returns (starts: seq<nat>)
    ensures starts == LineStartsOf(input)
  {
    starts := [0];
    for index := 0 to |input|
      invariant LineStartsOf(input) == starts + StartsAfter(input, index)
    {
      ghost var before, after := starts, StartsAfter(input, index + 1);
      if input[index] == NEWLINE && index + 1 < |input| {
        starts := starts + [index + 1];
        assert before + ([index + 1] + after) == starts + after;
      }
    }
    assert starts + [] == starts;
  }

  /** The line starts after position `from`. */
  function StartsAfter(input: Bytes, from: nat): seq<nat>
    decreases |input| - from
  {
    if from >= |input| then []
    else if input[from] == NEWLINE && from + 1 < |input| then [from + 1] + StartsAfter(input, from + 1)
    else StartsAfter(input, from + 1)
  }

  function LineStartsOf(input: Bytes): seq<nat> {
    [0] + StartsAfter(input, 0)
  }

  /** The end of a line: before its newline, or the end of the text for the last line. */
  function LineEnd(input: Bytes, starts: seq<nat>, line: nat): nat {
    if line + 1 < |starts| then
      if starts[line + 1] == 0 then 0 else starts[line + 1] - 1
    else |input|
  }

  lemma {:induction false} StartsAfterExact(input: Bytes, from: nat)
    ensures ListsLineStarts(input, StartsAfter(input, from), from)
    decreases |input| - from
  {
    if from < |input| {
      var rest := StartsAfter(input, from + 1);
      StartsAfterExact(input, from + 1);
      if StartsLine(input, from + 1) {
        OneMoreStart(input, rest, from);
      } else {
        NoMoreStart(input, rest, from);
      }
    }
  }

  lemma OneMoreStart(input: Bytes, rest: seq<nat>, from: nat)
    requires ListsLineStarts(input, rest, from + 1) && StartsLine(input, from + 1)
    ensures ListsLineStarts(input, [from + 1] + rest, from)
  {
    forall p: nat | StartsLine(input, p) && from < p
      ensures p in [from + 1] + rest
    {
      assert p == from + 1 || p in rest;
    }
  }

  lemma NoMoreStart(input: Bytes, rest: seq<nat>, from: nat)
    requires ListsLineStarts(input, rest, from + 1) && !StartsLine(input, from + 1)
    ensures ListsLineStarts(input, rest, from)
  {
  }

  /** The computed line starts are index 0 and every index after a newline inside the text, in
      ascending order. */
  lemma LineStartsExact(input: Bytes)
    ensures ListsLineStarts(input, LineStartsOf(input), -1)
  {
    StartsAfterExact(input, 0);
  }

  // ---------------------------------------------------------------- searching

  predicate OccursAt(text: Bytes, needle: Bytes, i: int) {
    0 <= i && i + |needle| <= |text| && text[i..i + |needle|] == needle
  }

  /** `match_indices`: the non-overlapping occurrences found from left to right. */
  function MatchIndices(text: Bytes, needle: Bytes, from: nat): seq<nat>
    requires needle != []
    decreases |text| - from
  {
    if from + |needle| > |text| then []
    else if OccursAt(text, needle, from) then [from] + MatchIndices(text, needle, from + |needle|)
    else MatchIndices(text, needle, from + 1)
  }

  ghost predicate Disjoint(found: seq<nat>, length: nat) {
    forall i, j :: 0 <= i < j < |found| ==> found[i] + length <= found[j]
  }

  ghost predicate CoveredBy(found: seq<nat>, length: nat, p: nat) {
    exists i :: 0 <= i < |found| && found[i] <= p < found[i] + length
  }

  /** The scan finds occurrences only, in ascending order and without overlaps. */
  lemma {:induction false} ScanSound(text: Bytes, needle: Bytes, from: nat)
    requires needle != []
    ensures var found := MatchIndices(text, needle, from);
            && Disjoint(found, |needle|)
            && forall i :: 0 <= i < |found| ==> from <= found[i] && OccursAt(text, needle, found[i])
    decreases |text| - from
  {
    if from + |needle| <= |text| {
      if OccursAt(text, needle, from) {
        ScanSound(text, needle, from + |needle|);
      } else {
        ScanSound(text, needle, from + 1);
      }
    }
  }

  /** Every occurrence overlaps one that the scan found at or before it. */
  lemma {:induction false} ScanComplete(text: Bytes, needle: Bytes, from: nat, p: nat)
    requires needle != [] && from <= p && OccursAt(text, needle, p)
    ensures CoveredBy(MatchIndices(text, needle, from), |needle|, p)
    decreases |text| - from
  {
    var found := MatchIndices(text, needle, from);
    if !OccursAt(text, needle, from) {
      ScanComplete(text, needle, from + 1, p);
    } else if p < from + |needle| {
      assert found[0] == from;
    } else {
      ScanComplete(text, needle, from + |needle|, p);
      var rest := MatchIndices(text, needle, from + |needle|);
      var i :| 0 <= i < |rest| && rest[i] <= p < rest[i] + |needle|;
      assert found[i + 1] == rest[i];
    }
  }

  function Distance(a: nat, b: nat): nat {
    if a < b then b - a else a - b
  }

  /** `min_by_key` on the distance to `target`: the first of the nearest candidates. */
  function Nearest(candidates: seq<nat>, target: nat): (r: Option<nat>)
    ensures r.None? <==> candidates == []
  {
    if candidates == [] then None
    else
      var last, earlier := candidates[|candidates| - 1], Nearest(candidates[..|candidates| - 1], target);
      if earlier.Some? && Distance(earlier.value, target) <= Distance(last, target) then earlier else Some(last)
  }

  /** Candidate `k` is nearest to the target, and strictly nearer than all candidates before it. */
  ghost predicate FirstNearest(candidates: seq<nat>, target: nat, k: int) {
    && 0 <= k < |candidates|
    && (forall i :: 0 <= i < k ==> Distance(candidates[k], target) < Distance(candidates[i], target))
    && (forall i :: k <= i < |candidates| ==> Distance(candidates[k], target) <= Distance(candidates[i], target))
  }

  lemma {:induction false} NearestExact(candidates: seq<nat>, target: nat) returns (k: nat)
    requires candidates != []
    ensures FirstNearest(candidates, target, k) && Nearest(candidates, target) == Some(candidates[k])
  {
    var n := |candidates| - 1;
    k := n;
    if n > 0 {
      var earlier := candidates[..n];
      var m := NearestExact(earlier, target);
      assert forall i :: 0 <= i < n ==> candidates[i] == earlier[i];
      if Distance(earlier[m], target) <= Distance(candidates[n], target) {
        k := m;
      }
    }
  }

  // ---------------------------------------------------------------- the span of a finding

  /** `checked_add` on `usize`. */
  function CheckedAdd(a: nat, b: nat): Option<nat> {
    if a + b > USIZE_MAX then None else Some(a + b)
  }

  /** `str::get` on a range. */
  predicate IsSlice(input: Bytes, lo: nat, hi: nat) {
    lo <= hi <= |input| && Utf8.IsCharBoundary(input, lo) && Utf8.IsCharBoundary(input, hi)
  }

  predicate FieldsValid(f: Finding) {
    f.startLine > 0 && f.endLine >= f.startLine && f.startColumn > 0 && f.endColumn > 0
  }

  /** Whether the reported columns name the matched text. */
  predicate ReportHolds(input: Bytes, f: Finding, start: Option<nat>, end: Option<nat>,
                        startLineEnd: nat, endLineEnd: nat)
  {
    && start.Some? && end.Some?
    && start.value < end.value
    && start.value <= startLineEnd
    && end.value <= endLineEnd
    && IsSlice(input, start.value, end.value)
    && input[start.value..end.value] == f.matched
  }

  function FindingSpan(input: Bytes, f: Finding): Result<(nat, nat), SpanError> {
    var starts := LineStartsOf(input);
    if !FieldsValid(f) || f.endLine > |starts| then Err(InvalidLocation)
    else
      var startLine, endLine := starts[f.startLine - 1], starts[f.endLine - 1];
      var startLineEnd := LineEnd(input, starts, f.startLine - 1);
      var endLineEnd := LineEnd(input, starts, f.endLine - 1);
      var start := CheckedAdd(startLine, f.startColumn - 1);
      var end := CheckedAdd(endLine, f.endColumn);
      if ReportHolds(input, f, start, end, startLineEnd, endLineEnd) then Ok((start.value, end.value))
      else Recover(input, f.matched, startLine, endLineEnd, if start.Some? then start.value else startLine)
  }

  /** Searches the reported lines for the matched text. */
  function Recover(input: Bytes, matched: Bytes, lo: nat, hi: nat, expected: nat): Result<(nat, nat), SpanError> {
    if matched == [] || lo > hi || !IsSlice(input, lo, hi) then Err(InvalidLocation)
    else
      match Nearest(Shift(MatchIndices(input[lo..hi], matched, 0), lo), expected)
      case None => Err(InvalidLocation)
      case Some(start) => Ok((start, start + |matched|))
  }

  function Shift(indices: seq<nat>, offset: nat): seq<nat> {
    seq(|indices|, i requires 0 <= i < |indices| => indices[i] + offset)
  }

  // ---------------------------------------------------------------- what the span means

  /** The reported lines exist. */
  ghost predicate LinesExist(input: Bytes, f: Finding) {
    1 <= f.startLine <= f.endLine <= |LineStartsOf(input)| && f.startColumn >= 1 && f.endColumn >= 1
  }

  ghost function RegionStart(input: Bytes, f: Finding): nat
    requires LinesExist(input, f)
  {
    LineStartsOf(input)[f.startLine - 1]
  }

  ghost function RegionEnd(input: Bytes, f: Finding): nat
    requires LinesExist(input, f)
  {
    LineEnd(input, LineStartsOf(input), f.endLine - 1)
  }

  lemma LineBounds(input: Bytes)
    requires Utf8.Valid(input)
    ensures var starts := LineStartsOf(input);
            forall i, j :: 0 <= i <= j < |starts| ==> IsSlice(input, starts[i], LineEnd(input, starts, j))
  {
    LineStartsExact(input);
    var starts := LineStartsOf(input);
    forall i, j | 0 <= i <= j < |starts|
      ensures IsSlice(input, starts[i], LineEnd(input, starts, j))
    {
      AfterNewline(input, starts[i]);
      AfterNewline(input, starts[j]);
      if j + 1 < |starts| {
        assert starts[j] < starts[j + 1];
        AfterNewline(input, starts[j + 1]);
      }
    }
  }

  lemma RegionIsSlice(input: Bytes, f: Finding)
    requires Utf8.Valid(input) && LinesExist(input, f)
    ensures IsSlice(input, RegionStart(input, f), RegionEnd(input, f))
  {
    LineBounds(input);
  }

  lemma AfterNewline(input: Bytes, start: nat)
    requires Utf8.Valid(input) && StartsLine(input, start)
    ensures start <= |input| && Utf8.IsCharBoundary(input, start)
    ensures start > 0 ==> Utf8.IsCharBoundary(input, start - 1)
  {
    if start > 0 {
      Utf8.AsciiBoundary(input, start - 1);
    }
  }

  lemma OccursInside(input: Bytes, matched: Bytes, lo: nat, hi: nat, p: nat)
    requires lo <= hi <= |input| && p + |matched| <= hi - lo
    ensures OccursAt(input[lo..hi], matched, p) <==> OccursAt(input, matched, lo + p)
  {
    SliceOfSlice(input, lo, hi, p, p + |matched|);
  }

  ghost predicate OccursBetween(input: Bytes, matched: Bytes, lo: nat, hi: nat) {
    exists p :: lo <= p && p + |matched| <= hi && OccursAt(input, matched, p)
  }

  /** The scan of a region finds something exactly when the region contains an occurrence. */
  lemma ScanOfRegion(input: Bytes, matched: Bytes, lo: nat, hi: nat)
    requires matched != [] && lo <= hi <= |input|
    ensures MatchIndices(input[lo..hi], matched, 0) != [] <==> OccursBetween(input, matched, lo, hi)
  {
    var found := MatchIndices(input[lo..hi], matched, 0);
    ScanSound(input[lo..hi], matched, 0);
    if found != [] {
      OccursInside(input, matched, lo, hi, found[0]);
    }
    if p :| lo <= p && p + |matched| <= hi && OccursAt(input, matched, p) {
      OccursInside(input, matched, lo, hi, p - lo);
      ScanComplete(input[lo..hi], matched, 0, p - lo);
    }
  }

  /** When the reported columns do not name the matched text, the recovered span is an occurrence
      inside the region: of those that the scan finds, the one nearest to the expected start, and
      the earliest on a tie. */
  lemma RecoveryPicksNearest(input: Bytes, matched: Bytes, lo: nat, hi: nat, expected: nat) returns (k: nat)
    requires Recover(input, matched, lo, hi, expected).Ok?
    ensures var found := Shift(MatchIndices(input[lo..hi], matched, 0), lo);
            && FirstNearest(found, expected, k)
            && Recover(input, matched, lo, hi, expected) == Ok((found[k], found[k] + |matched|))
            && OccursAt(input, matched, found[k]) && lo <= found[k] && found[k] + |matched| <= hi
  {
    var inner := MatchIndices(input[lo..hi], matched, 0);
    k := NearestExact(Shift(inner, lo), expected);
    ScanSound(input[lo..hi], matched, 0);
    OccursInside(input, matched, lo, hi, inner[k]);
  }

  ghost predicate Reported(input: Bytes, f: Finding)
    requires LinesExist(input, f)
  {
    var starts := LineStartsOf(input);
    ReportHolds(input, f, CheckedAdd(RegionStart(input, f), f.startColumn - 1),
                CheckedAdd(starts[f.endLine - 1], f.endColumn),
                LineEnd(input, starts, f.startLine - 1), RegionEnd(input, f))
  }

  lemma ReportIsInside(input: Bytes, f: Finding)
    requires LinesExist(input, f) && Reported(input, f)
    ensures FindingSpan(input, f).Ok?
    ensures var (start, end) := FindingSpan(input, f).value;
            && RegionStart(input, f) <= start < end <= RegionEnd(input, f)
            && IsSlice(input, start, end) && input[start..end] == f.matched
  {
  }

  /** A span is found exactly when the reported lines exist and contain the (non-empty) matched
      text. */
  lemma SpanFoundExactly(input: Bytes, f: Finding)
    requires Utf8.Valid(input)
    ensures FindingSpan(input, f).Ok? <==>
            LinesExist(input, f) && f.matched != []
            && OccursBetween(input, f.matched, RegionStart(input, f), RegionEnd(input, f))
  {
    if LinesExist(input, f) {
      RegionIsSlice(input, f);
      if Reported(input, f) {
        ReportIsInside(input, f);
        var start := FindingSpan(input, f).value.0;
        assert OccursAt(input, f.matched, start);
      } else if f.matched != [] {
        ScanOfRegion(input, f.matched, RegionStart(input, f), RegionEnd(input, f));
      }
    }
  }

  /** A found span is a non-empty range inside the reported lines, on character boundaries, and its
      text is the matched text. */
  lemma SpanIsTheMatch(input: Bytes, f: Finding)
    requires Utf8.Valid(input) && FindingSpan(input, f).Ok?
    ensures LinesExist(input, f)
    ensures var (start, end) := FindingSpan(input, f).value;
            && RegionStart(input, f) <= start < end <= RegionEnd(input, f) <= |input|
            && IsSlice(input, start, end) && input[start..end] == f.matched
  {
    RegionIsSlice(input, f);
    if Reported(input, f) {
      ReportIsInside(input, f);
    } else {
      var expected := NotReported(input, f);
      RecoveredSpan(input, f.matched, RegionStart(input, f), RegionEnd(input, f), expected);
    }
  }

  lemma NextStart(input: Bytes, line: nat, p: nat)
    requires line < |LineStartsOf(input)| && LineStartsOf(input)[line] < p && StartsLine(input, p)
    ensures line + 1 < |LineStartsOf(input)| && LineStartsOf(input)[line + 1] <= p
  {
    LineStartsExact(input);
    var starts := LineStartsOf(input);
    var i :| 0 <= i < |starts| && starts[i] == p;
    assert line + 1 < i ==> starts[line + 1] < starts[i];
  }

  /** Where a line ends: before its newline, and the last line at the end of the text. Between start and end
      there is no newline, except one at the very end of the text. */
  lemma LineEndExact(input: Bytes, line: nat)
    requires line < |LineStartsOf(input)|
    ensures var starts := LineStartsOf(input);
            var end := LineEnd(input, starts, line);
            && starts[line] <= end <= |input|
            && (if line + 1 == |starts| then end == |input| else end < |input| && input[end] == 10)
            && forall p :: starts[line] <= p < end && input[p] == 10 ==> p + 1 == |input|
  {
    LineStartsExact(input);
    var starts := LineStartsOf(input);
    var end := LineEnd(input, starts, line);
    if line + 1 < |starts| {
      assert starts[line] < starts[line + 1];
    }
    forall p | starts[line] <= p < end && input[p] == 10
      ensures p + 1 == |input|
    {
      if p + 1 < |input| {
        NextStart(input, line, p + 1);
      }
    }
  }

  /** The reported start and end, counted from the starts of the reported lines. */
  ghost function ReportedStart(input: Bytes, f: Finding): nat
    requires LinesExist(input, f)
  {
    LineStartsOf(input)[f.startLine - 1] + f.startColumn - 1
  }

  ghost function ReportedEnd(input: Bytes, f: Finding): nat
    requires LinesExist(input, f)
  {
    LineStartsOf(input)[f.endLine - 1] + f.endColumn
  }

  /** The reported columns are on the reported lines, and the text between them is the match. */
  ghost predicate ColumnsHoldTheMatch(input: Bytes, f: Finding)
    requires LinesExist(input, f)
  {
    var start, end := ReportedStart(input, f), ReportedEnd(input, f);
    && start <= LineEnd(input, LineStartsOf(input), f.startLine - 1)
    && start < end <= LineEnd(input, LineStartsOf(input), f.endLine - 1) <= |input|
    && input[start..end] == f.matched
  }

  /** What is cut out of valid text as valid text is a slice. */
  lemma MatchIsASlice(input: Bytes, matched: Bytes, start: nat, end: nat)
    requires Utf8.Valid(input) && Utf8.Valid(matched) && start < end <= |input| && input[start..end] == matched
    ensures IsSlice(input, start, end)
  {
    assert |matched| == end - start;
    MatchIsOnBoundaries(input, matched, start);
  }

  lemma ReportedHoldsTheMatch(input: Bytes, f: Finding)
    requires LinesExist(input, f) && Reported(input, f)
    ensures ColumnsHoldTheMatch(input, f)
    ensures FindingSpan(input, f) == Ok((ReportedStart(input, f), ReportedEnd(input, f)))
  {
    LineEndExact(input, f.endLine - 1);
  }

  lemma MatchIsReported(input: Bytes, f: Finding)
    requires Utf8.Valid(input) && |input| <= USIZE_MAX && LinesExist(input, f) && ColumnsHoldTheMatch(input, f)
    ensures Reported(input, f)
  {
    ReportFits(input, f, ReportedStart(input, f), ReportedEnd(input, f),
               LineEnd(input, LineStartsOf(input), f.startLine - 1),
               LineEnd(input, LineStartsOf(input), f.endLine - 1));
    ReportedIs(input, f);
  }

  lemma ReportedIs(input: Bytes, f: Finding)
    requires LinesExist(input, f) && ReportedStart(input, f) <= USIZE_MAX && ReportedEnd(input, f) <= USIZE_MAX
    ensures Reported(input, f) ==
            ReportHolds(input, f, Some(ReportedStart(input, f)), Some(ReportedEnd(input, f)),
                        LineEnd(input, LineStartsOf(input), f.startLine - 1),
                        LineEnd(input, LineStartsOf(input), f.endLine - 1))
  {
  }

  lemma ReportFits(input: Bytes, f: Finding, start: nat, end: nat, startLineEnd: nat, endLineEnd: nat)
    requires Utf8.Valid(input) && start <= startLineEnd && start < end <= endLineEnd && end <= |input|
    requires input[start..end] == f.matched
    ensures ReportHolds(input, f, Some(start), Some(end), startLineEnd, endLineEnd)
  {
    MatchIsASlice(input, f.matched, start, end);
  }

  /** When the reported columns hold the match, they are the answer. */
  lemma ReportIsTheAnswer(input: Bytes, f: Finding)
    requires Utf8.Valid(input) && |input| <= USIZE_MAX && LinesExist(input, f) && ColumnsHoldTheMatch(input, f)
    ensures FindingSpan(input, f) == Ok((ReportedStart(input, f), ReportedEnd(input, f)))
  {
    MatchIsReported(input, f);
    ReportedHoldsTheMatch(input, f);
  }

  /** Otherwise the answer is the nearest of the occurrences that the scan of the reported lines visits, the
      first of them on a tie; near means near to the reported start, or to the start of the line when the
      column overflows. */
  lemma OtherwiseTheNearest(input: Bytes, f: Finding) returns (k: nat)
    requires Utf8.Valid(input) && |input| <= USIZE_MAX && LinesExist(input, f) && FindingSpan(input, f).Ok?
    requires !ColumnsHoldTheMatch(input, f)
    ensures var lo, hi := RegionStart(input, f), RegionEnd(input, f);
            && f.matched != [] && lo <= hi <= |input|
            && var found := Shift(MatchIndices(input[lo..hi], f.matched, 0), lo);
               && FirstNearest(found, if ReportedStart(input, f) <= USIZE_MAX then ReportedStart(input, f) else lo, k)
               && FindingSpan(input, f) == Ok((found[k], found[k] + |f.matched|))
  {
    if Reported(input, f) {
      ReportedHoldsTheMatch(input, f);
    }
    var expected := NotReported(input, f);
    k := RecoveryPicksNearest(input, f.matched, RegionStart(input, f), RegionEnd(input, f), expected);
  }

  lemma NotReported(input: Bytes, f: Finding) returns (expected: nat)
    requires LinesExist(input, f) && !Reported(input, f)
    ensures FindingSpan(input, f) == Recover(input, f.matched, RegionStart(input, f), RegionEnd(input, f), expected)
    ensures expected == if ReportedStart(input, f) <= USIZE_MAX then ReportedStart(input, f) else RegionStart(input, f)
  {
    var reported := CheckedAdd(RegionStart(input, f), f.startColumn - 1);
    expected := if reported.Some? then reported.value else RegionStart(input, f);
  }

  lemma RecoveredSpan(input: Bytes, matched: Bytes, lo: nat, hi: nat, expected: nat)
    requires Utf8.Valid(input) && Utf8.Valid(matched)
    requires Recover(input, matched, lo, hi, expected).Ok?
    ensures var (start, end) := Recover(input, matched, lo, hi, expected).value;
            && lo <= start < end <= hi <= |input|
            && IsSlice(input, start, end) && input[start..end] == matched
  {
    var k := RecoveryPicksNearest(input, matched, lo, hi, expected);
    MatchIsOnBoundaries(input, matched, Recover(input, matched, lo, hi, expected).value.0);
  }

  lemma MatchAndRest(input: Bytes, matched: Bytes, start: nat)
    requires OccursAt(input, matched, start)
    ensures input[start..] == matched + input[start + |matched|..]
  {
  }

  /** UTF-8 synchronises itself: an occurrence of valid text in valid text is on boundaries. */
  lemma MatchIsOnBoundaries(input: Bytes, matched: Bytes, start: nat)
    requires Utf8.Valid(input) && Utf8.Valid(matched) && matched != [] && OccursAt(input, matched, start)
    ensures Utf8.IsCharBoundary(input, start) && Utf8.IsCharBoundary(input, start + |matched|)
  {
    MatchStarts(input, matched, start);
    var end := start + |matched|;
    var after := input[end..];
    MatchAndRest(input, matched, start);
    AfterMatch(matched, after);
    assert end < |input| ==> after[0] == input[end];
  }

  lemma MatchStarts(input: Bytes, matched: Bytes, start: nat)
    requires Utf8.Valid(input) && Utf8.Valid(matched) && matched != [] && OccursAt(input, matched, start)
    ensures Utf8.IsCharBoundary(input, start) && Utf8.Valid(input[start..])
  {
    assert input[start] == matched[0];
    Utf8.ValidStart(matched);
    Utf8.ValidAtBoundary(input, start);
  }

  lemma AfterMatch(matched: Bytes, after: Bytes)
    requires Utf8.Valid(matched) && Utf8.Valid(matched + after)
    ensures after != [] ==> !Utf8.Continuation(after[0])
  {
    Utf8.ValidConcat(matched, after);
    if after != [] {
      Utf8.ValidStart(after);
    }
  }

  // ---------------------------------------------------------------- the nearest of all occurrences

  predicate OccursIn(input: Bytes, matched: Bytes, lo: nat, hi: nat, p: int) {
    lo <= p && p + |matched| <= hi && OccursAt(input, matched, p)
  }

  /** Two occurrences in the region, of which the second starts inside the first. */
  ghost predicate Overlap(input: Bytes, matched: Bytes, lo: nat, hi: nat, p: int, q: int) {
    OccursIn(input, matched, lo, hi, p) && OccursIn(input, matched, lo, hi, q) && p < q < p + |matched|
  }

  ghost predicate NoOverlap(input: Bytes, matched: Bytes, lo: nat, hi: nat) {
    forall p, q :: !Overlap(input, matched, lo, hi, p, q)
  }

  /** No occurrence in the region is nearer to the target. */
  ghost predicate IsNearest(input: Bytes, matched: Bytes, lo: nat, hi: nat, target: nat, start: nat) {
    forall p :: OccursIn(input, matched, lo, hi, p) ==> Distance(start, target) <= Distance(p, target)
  }

  /** Where the scan of a region finds the text. */
  function ScannedIn(input: Bytes, matched: Bytes, lo: nat, hi: nat): seq<nat>
    requires matched != [] && lo <= hi <= |input|
  {
    Shift(MatchIndices(input[lo..hi], matched, 0), lo)
  }

  /** Without overlaps the scan visits every occurrence. */
  lemma EveryOccurrenceIsScanned(input: Bytes, matched: Bytes, lo: nat, hi: nat, p: int)
    requires matched != [] && lo <= hi <= |input|
    requires NoOverlap(input, matched, lo, hi) && OccursIn(input, matched, lo, hi, p)
    ensures p in ScannedIn(input, matched, lo, hi)
  {
    var found := MatchIndices(input[lo..hi], matched, 0);
    OccursInside(input, matched, lo, hi, p - lo);
    ScanComplete(input[lo..hi], matched, 0, p - lo);
    var i :| 0 <= i < |found| && found[i] <= p - lo < found[i] + |matched|;
    ScannedOccurs(input, matched, lo, hi, i);
    assert !Overlap(input, matched, lo, hi, lo + found[i], p);
    assert Shift(found, lo)[i] == lo + found[i] == p;
  }

  lemma ScannedOccurs(input: Bytes, matched: Bytes, lo: nat, hi: nat, i: nat)
    requires matched != [] && lo <= hi <= |input| && i < |MatchIndices(input[lo..hi], matched, 0)|
    ensures OccursIn(input, matched, lo, hi, lo + MatchIndices(input[lo..hi], matched, 0)[i])
  {
    ScanSound(input[lo..hi], matched, 0);
    OccursInside(input, matched, lo, hi, MatchIndices(input[lo..hi], matched, 0)[i]);
  }

  /** Of two overlapping occurrences the scan misses one. */
  lemma OverlapIsMissed(input: Bytes, matched: Bytes, lo: nat, hi: nat, p: nat, q: nat)
    requires matched != [] && lo <= hi <= |input| && p < q < p + |matched|
    ensures p !in ScannedIn(input, matched, lo, hi) || q !in ScannedIn(input, matched, lo, hi)
  {
    var inner, found := MatchIndices(input[lo..hi], matched, 0), ScannedIn(input, matched, lo, hi);
    ScanSound(input[lo..hi], matched, 0);
    forall i, j | 0 <= i < |found| && 0 <= j < |found| && found[i] == p
      ensures found[j] != q
    {
      assert i < j ==> inner[i] + |matched| <= inner[j];
      assert j < i ==> inner[j] + |matched| <= inner[i];
    }
  }

  lemma MissedOccurrence(input: Bytes, matched: Bytes, lo: nat, hi: nat) returns (p: nat)
    requires matched != [] && lo <= hi <= |input| && !NoOverlap(input, matched, lo, hi)
    ensures OccursIn(input, matched, lo, hi, p) && p !in ScannedIn(input, matched, lo, hi)
  {
    var i, j :| Overlap(input, matched, lo, hi, i, j);
    OverlapIsMissed(input, matched, lo, hi, i, j);
    p := if i in ScannedIn(input, matched, lo, hi) then j else i;
  }

  /** In a region without overlapping occurrences recovery finds the nearest of all. */
  lemma RecoveryIsNearest(input: Bytes, matched: Bytes, lo: nat, hi: nat, target: nat)
    requires NoOverlap(input, matched, lo, hi) && Recover(input, matched, lo, hi, target).Ok?
    ensures IsNearest(input, matched, lo, hi, target, Recover(input, matched, lo, hi, target).value.0)
  {
    var k := RecoveryPicksNearest(input, matched, lo, hi, target);
    var found := Shift(MatchIndices(input[lo..hi], matched, 0), lo);
    forall p | OccursIn(input, matched, lo, hi, p)
      ensures Distance(found[k], target) <= Distance(p, target)
    {
      EveryOccurrenceIsScanned(input, matched, lo, hi, p);
      var i :| 0 <= i < |found| && found[i] == p;
    }
  }

  /** A missed occurrence is not found even when it is the target. */
  lemma MissedIsNotFound(input: Bytes, matched: Bytes, lo: nat, hi: nat, p: nat)
    requires IsSlice(input, lo, hi) && matched != [] && OccursIn(input, matched, lo, hi, p)
    requires p !in ScannedIn(input, matched, lo, hi)
    ensures Recover(input, matched, lo, hi, p).Ok?
    ensures !IsNearest(input, matched, lo, hi, p, Recover(input, matched, lo, hi, p).value.0)
  {
    ScanOfRegion(input, matched, lo, hi);
    assert OccursBetween(input, matched, lo, hi);
    var k := RecoveryPicksNearest(input, matched, lo, hi, p);
    assert Distance(p, p) == 0;
  }

  /** The start that recovery aims at. */
  ghost function TargetStart(input: Bytes, f: Finding): nat
    requires LinesExist(input, f)
  {
    var start := CheckedAdd(LineStartsOf(input)[f.startLine - 1], f.startColumn - 1);
    if start.Some? then start.value else LineStartsOf(input)[f.startLine - 1]
  }

  /** The span of a finding is the nearest occurrence in the reported lines. */
  ghost predicate SpanIsNearest(input: Bytes, f: Finding)
    requires LinesExist(input, f)
  {
    FindingSpan(input, f).Ok? ==>
      IsNearest(input, f.matched, RegionStart(input, f), RegionEnd(input, f), TargetStart(input, f),
                FindingSpan(input, f).value.0)
  }

  function WithColumns(f: Finding, startColumn: nat, endColumn: nat): Finding {
    f.(startColumn := startColumn, endColumn := endColumn)
  }

  lemma NearestWithoutOverlap(input: Bytes, f: Finding)
    requires Utf8.Valid(input) && LinesExist(input, f)
    requires NoOverlap(input, f.matched, RegionStart(input, f), RegionEnd(input, f))
    ensures SpanIsNearest(input, f)
  {
    if FindingSpan(input, f).Ok? {
      if Reported(input, f) {
        assert FindingSpan(input, f).value.0 == TargetStart(input, f);
      } else {
        RecoveryIsNearest(input, f.matched, RegionStart(input, f), RegionEnd(input, f), TargetStart(input, f));
      }
    }
  }

  /** These columns do not lead to the nearest occurrence. */
  ghost predicate Misled(input: Bytes, f: Finding, startColumn: nat, endColumn: nat)
    requires LinesExist(input, f)
  {
    startColumn > 0 && endColumn > 0 && !SpanIsNearest(input, WithColumns(f, startColumn, endColumn))
  }

  /** A report that points at a missed occurrence, with an end column behind the text. */
  lemma PointedAtButMissed(input: Bytes, f: Finding, lo: nat, hi: nat, p: nat)
    requires |input| <= USIZE_MAX && LinesExist(input, f) && f.matched != []
    requires lo == RegionStart(input, f) && hi == RegionEnd(input, f) && IsSlice(input, lo, hi)
    requires OccursIn(input, f.matched, lo, hi, p) && p !in ScannedIn(input, f.matched, lo, hi)
    ensures Misled(input, f, p - lo + 1, |input| + 1)
  {
    var g := WithColumns(f, p - lo + 1, |input| + 1);
    assert LinesExist(input, g) && RegionStart(input, g) == lo && RegionEnd(input, g) == hi;
    assert TargetStart(input, g) == p;
    BeyondTheText(input, g);
    var expected := NotReported(input, g);
    MissedIsNotFound(input, f.matched, lo, hi, p);
  }

  /** An end column behind the text is not reported. */
  lemma BeyondTheText(input: Bytes, f: Finding)
    requires LinesExist(input, f) && f.endColumn > |input|
    ensures !Reported(input, f)
  {
  }

  /** Whatever columns are reported, the span is the nearest occurrence in the reported lines. */
  ghost predicate AlwaysNearest(input: Bytes, f: Finding)
    requires LinesExist(input, f)
  {
    forall startColumn: nat, endColumn: nat :: !Misled(input, f, startColumn, endColumn)
  }

  lemma OverlapMisleads(input: Bytes, f: Finding, lo: nat, hi: nat)
    requires |input| <= USIZE_MAX && LinesExist(input, f) && f.matched != []
    requires lo == RegionStart(input, f) && hi == RegionEnd(input, f) && IsSlice(input, lo, hi)
    requires !NoOverlap(input, f.matched, lo, hi)
    ensures !AlwaysNearest(input, f)
  {
    var p := MissedOccurrence(input, f.matched, lo, hi);
    PointedAtButMissed(input, f, lo, hi, p);
  }

  lemma NoneIsMisled(input: Bytes, f: Finding, startColumn: nat, endColumn: nat)
    requires Utf8.Valid(input) && LinesExist(input, f) && f.matched != []
    requires NoOverlap(input, f.matched, RegionStart(input, f), RegionEnd(input, f))
    ensures !Misled(input, f, startColumn, endColumn)
  {
    if startColumn > 0 && endColumn > 0 {
      NearestWithoutOverlap(input, WithColumns(f, startColumn, endColumn));
    }
  }

  /** This holds if and only if no two occurrences in those lines overlap. */
  lemma NearestExactlyWithoutOverlap(input: Bytes, f: Finding)
    requires Utf8.Valid(input) && |input| <= USIZE_MAX && LinesExist(input, f) && f.matched != []
    ensures AlwaysNearest(input, f) <==> NoOverlap(input, f.matched, RegionStart(input, f), RegionEnd(input, f))
  {
    if NoOverlap(input, f.matched, RegionStart(input, f), RegionEnd(input, f)) {
      forall startColumn: nat, endColumn: nat
        ensures !Misled(input, f, startColumn, endColumn)
      {
        NoneIsMisled(input, f, startColumn, endColumn);
      }
    } else {
      RegionIsSlice(input, f);
      OverlapMisleads(input, f, RegionStart(input, f), RegionEnd(input, f));
    }
  }

  /** For example in "aaa", when "aa" is reported at column 2: there is an occurrence at that place, but
      the scan never looks at it. */
  lemma NearestMayBeSkipped(ruleId: Utf8.Text)
    ensures OccursAt([97, 97, 97], [97, 97], 1)
    ensures FindingSpan([97, 97, 97], SkippedFinding(ruleId)) == Ok((0, 2))
  {
    var text: Bytes := [97, 97, 97];
    SkippedInRegion();
    assert StartsAfter(text, 3) == [] && StartsAfter(text, 2) == [] && StartsAfter(text, 1) == [];
    assert LineStartsOf(text) == [0];
  }

  /** "aa" on line 1, at column 2. */
  function SkippedFinding(ruleId: Utf8.Text): Finding {
    Utf8.AsciiChars([97, 97]);
    Finding(ruleId, 1, 1, 2, 2, [97, 97])
  }

  lemma SkippedInRegion()
    ensures OccursAt([97, 97, 97], [97, 97], 1)
    ensures Recover([97, 97, 97], [97, 97], 0, 3, 1) == Ok((0, 2))
  {
    var text: Bytes, needle: Bytes := [97, 97, 97], [97, 97];
    assert text[0..3] == text;
    assert MatchIndices(text, needle, 2) == [];
    assert text[0..2] == needle && text[1..3] == needle;
    assert MatchIndices(text, needle, 0) == [0];
    assert Shift([0], 0) == [0];
    assert Nearest([], 1) == None;
    assert Nearest([0], 1) == Some(0) by {
      assert [0][..0] == [];
    }
  }
}
