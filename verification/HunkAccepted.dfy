/** What the two hunk walks of `collect-diff-context-cli/src/review_scope.rs` promise for any bytes: which
    lines are accepted as hunk headers, and that added lines lie where a header announces new lines. */
module HunkAccepted {
  import opened ByteStrings
  import opened Numerals
  import opened HunkHeaders
  import opened HunkWalk
  import Utf8

  // ---------------------------------------------------------------- words

  /** The 25 code points of the Unicode property White_Space. */
  lemma WhitespaceIs(c: int)
    ensures IsWhitespace(c) <==>
            c in {9, 10, 11, 12, 13, 32, 133, 160, 5760, 8192, 8193, 8194, 8195, 8196, 8197, 8198, 8199, 8200, 8201,
                  8202, 8232, 8233, 8239, 8287, 12288}
  {
  }

  ghost predicate Blank(s: seq<int>) {
    forall i :: 0 <= i < |s| ==> IsWhitespace(s[i])
  }

  /** `s` is a run of whitespace, a word, and the rest, which starts with whitespace unless it is empty. */
  ghost predicate WordFirst(s: seq<int>, gap: seq<int>, word: seq<int>, rest: seq<int>) {
    s == gap + word + rest && Blank(gap) && IsWord(word) && (rest == [] || IsWhitespace(rest[0]))
  }

  lemma {:induction false} WordEnds(word: seq<int>, rest: seq<int>)
    requires IsWord(word) && (rest == [] || IsWhitespace(rest[0]))
    ensures WordLength(word + rest) == |word|
  {
    if |word| == 1 {
      assert (word + rest)[1..] == rest;
      assert WordLength(rest) == 0;
    } else {
      WordEnds(word[1..], rest);
      assert (word + rest)[1..] == word[1..] + rest;
    }
  }

  lemma {:induction false} FirstWordIs(s: seq<int>, gap: seq<int>, word: seq<int>, rest: seq<int>)
    requires WordFirst(s, gap, word, rest)
    ensures Words(s) == [word] + Words(rest)
    decreases |gap|
  {
    if gap == [] {
      WordEnds(word, rest);
      assert s == word + rest;
      assert s[..|word|] == word && s[|word|..] == rest;
    } else {
      assert s[1..] == gap[1..] + word + rest;
      FirstWordIs(s[1..], gap[1..], word, rest);
    }
  }

  lemma {:induction false} NoWordsExactly(s: seq<int>)
    ensures Words(s) == [] <==> Blank(s)
    decreases |s|
  {
    if s != [] && IsWhitespace(s[0]) {
      NoWordsExactly(s[1..]);
      assert forall i :: 0 < i < |s| ==> s[i] == s[1..][i - 1];
    }
  }

  lemma {:induction false} WordLengthStops(s: seq<int>)
    ensures forall i :: 0 <= i < WordLength(s) ==> !IsWhitespace(s[i])
    ensures WordLength(s) < |s| ==> IsWhitespace(s[WordLength(s)])
  {
    if s != [] && !IsWhitespace(s[0]) {
      WordLengthStops(s[1..]);
    }
  }

  lemma {:induction false} SomeWordFirst(s: seq<int>) returns (gap: seq<int>, word: seq<int>, rest: seq<int>)
    requires Words(s) != []
    ensures WordFirst(s, gap, word, rest)
  {
    if IsWhitespace(s[0]) {
      var g, w, r := SomeWordFirst(s[1..]);
      gap, word, rest := [s[0]] + g, w, r;
      assert s == [s[0]] + s[1..];
    } else {
      var n := WordLength(s);
      WordLengthStops(s);
      gap, word, rest := [], s[..n], s[n..];
    }
  }

  // ---------------------------------------------------------------- headers

  ghost predicate DigitsOf(digits: seq<int>, value: nat, max: nat) {
    digits != [] && (forall d :: d in digits ==> 48 <= d <= 57) && DecimalValue(digits) == value <= max
  }

  /** A number: digits, with an optional plus sign. */
  ghost predicate NumberText(text: seq<int>, value: nat, max: nat) {
    DigitsOf(text, value, max) || (text != [] && text[0] == 43 && DigitsOf(text[1..], value, max))
  }

  /** A start and a count with a comma at `i` between them. */
  ghost predicate CommaAt(text: seq<int>, i: int, start: nat, count: nat) {
    && 0 <= i < |text| && text[i] == 44 && 44 !in text[..i]
    && NumberText(text[..i], start, U32_MAX) && NumberText(text[i + 1..], count, U64_MAX)
  }

  /** A start and a count, or a start alone for a count of 1. */
  ghost predicate RangeSpelled(text: seq<int>, start: nat, count: nat) {
    if 44 in text then exists i :: CommaAt(text, i, start, count)
    else count == 1 && NumberText(text, start, U32_MAX)
  }

  lemma NumberExactly(text: seq<int>, value: nat, max: nat)
    ensures ParseUnsigned(text, max) == Some(value) <==> NumberText(text, value, max)
  {
    DigitsExactly(text);
    if text != [] {
      DigitsExactly(text[1..]);
    }
  }

  lemma DigitsExactly(digits: seq<int>)
    ensures AllDigits(digits) <==> forall d :: d in digits ==> 48 <= d <= 57
  {
    assert forall i :: 0 <= i < |digits| ==> digits[i] in digits;
  }

  lemma {:induction false} FirstCommaIs(s: seq<int>)
    ensures var i := FirstComma(s);
            44 !in s[..i] && (i < |s| ==> s[i] == 44)
  {
    if s != [] && s[0] != COMMA as int {
      FirstCommaIs(s[1..]);
      var i := FirstComma(s[1..]);
      assert s[..i + 1] == [s[0]] + s[1..][..i];
    }
  }

  lemma {:induction false} CommaIsFirst(s: seq<int>, i: nat)
    requires i < |s| && s[i] == 44 && 44 !in s[..i]
    ensures FirstComma(s) == i
  {
    if i > 0 {
      assert s[0] == s[..i][0];
      assert s[1..][..i - 1] == s[..i][1..];
      CommaIsFirst(s[1..], i - 1);
    }
  }

  lemma CommaFreeRange(text: seq<int>, start: nat, count: nat)
    requires 44 !in text
    ensures ParseHunkRange(text) == Ok((start, count)) <==> count == 1 && NumberText(text, start, U32_MAX)
  {
    FirstCommaIs(text);
    assert FirstComma(text) == |text| && text[..|text|] == text;
    NumberExactly(text, start, U32_MAX);
    ParseUndoesDecimal(1, U64_MAX);
    assert Decimal(1) == [DIGIT_ZERO + 1];
  }

  lemma CommaRange(text: seq<int>, i: nat, start: nat, count: nat)
    requires i < |text| && text[i] == 44 && 44 !in text[..i]
    ensures ParseHunkRange(text) == Ok((start, count)) <==> CommaAt(text, i, start, count)
  {
    CommaIsFirst(text, i);
    NumberExactly(text[..i], start, U32_MAX);
    NumberExactly(text[i + 1..], count, U64_MAX);
  }

  lemma RangeExactly(text: seq<int>, start: nat, count: nat)
    ensures ParseHunkRange(text) == Ok((start, count)) <==> RangeSpelled(text, start, count)
  {
    if 44 in text {
      var i := FirstComma(text);
      FirstCommaIs(text);
      assert text[..|text|] == text;
      CommaRange(text, i, start, count);
      if k :| CommaAt(text, k, start, count) {
        CommaRange(text, k, start, count);
      }
    } else {
      CommaFreeRange(text, start, count);
    }
  }

  /** Among the words of the line the first is "@@", the second is "-" and the old range, and the third is
      "+" and the new range. */
  ghost predicate HeaderSpelled(words: seq<seq<int>>, r: HunkRanges) {
    && |words| >= 3 && words[0] == [64, 64]
    && words[1] != [] && words[1][0] == 45 && RangeSpelled(words[1][1..], r.oldStart, r.oldCount)
    && words[2] != [] && words[2][0] == 43 && RangeSpelled(words[2][1..], r.newStart, r.newCount)
  }

  /** A line is read as a hunk header with these numbers if and only if it is UTF-8 and spells them. */
  lemma HeaderExactly(line: Bytes, r: HunkRanges)
    ensures ParseHunkRanges(line) == Ok(r) <==> Utf8.Valid(line) && HeaderSpelled(Words(Utf8.Chars(line)), r)
  {
    if Utf8.Valid(line) {
      var words := Words(Utf8.Chars(line));
      if |words| >= 3 && words[1] != [] && words[2] != [] {
        RangeExactly(words[1][1..], r.oldStart, r.oldCount);
        RangeExactly(words[2][1..], r.newStart, r.newCount);
      }
    }
  }

  // ---------------------------------------------------------------- added lines of any bytes

  /** Some header announces the line as a new one. */
  ghost predicate Announced(lines: seq<Bytes>, n: nat) {
    exists line, r :: line in lines && Announces(line, r, n)
  }

  ghost predicate Announces(line: Bytes, r: HunkRanges, n: nat) {
    HUNK_MARK <= line && ParseHunkRanges(line) == Ok(r) && r.newStart <= n < r.newStart + r.newCount
  }

  /** What is still to come of the open hunk was announced by its header. */
  ghost predicate CursorAnnounced(lines: seq<Bytes>, hunk: Option<HunkCursor>) {
    hunk.Some? ==>
      forall n: nat :: hunk.value.nextNewLine <= n < hunk.value.nextNewLine + hunk.value.remainingNew ==>
        Announced(lines, n)
  }

  ghost predicate AllAnnounced(lines: seq<Bytes>, added: set<nat>) {
    forall n :: n in added ==> Announced(lines, n)
  }

  lemma StepIsAnnounced(all: seq<Bytes>, line: Bytes, hunk: Option<HunkCursor>, added: set<nat>)
    requires line in all && CursorAnnounced(all, hunk) && AllAnnounced(all, added)
    requires AddedStep(line, hunk, added).Ok?
    ensures var (next, more) := AddedStep(line, hunk, added).value;
            CursorAnnounced(all, next) && AllAnnounced(all, more)
  {
    if HUNK_MARK <= line {
      var r := ParseHunkRanges(line).value;
      forall n: nat | r.newStart <= n < r.newStart + r.newCount
        ensures Announced(all, n)
      {
        assert Announces(line, r, n);
      }
    }
  }

  lemma {:induction false} WalkIsAnnounced(
    all: seq<Bytes>, lines: seq<Bytes>, hunk: Option<HunkCursor>, added: set<nat>)
    requires (forall line :: line in lines ==> line in all) && CursorAnnounced(all, hunk) && AllAnnounced(all, added)
    requires AddedFrom(lines, hunk, added).Ok?
    ensures AllAnnounced(all, AddedFrom(lines, hunk, added).value)
    decreases |lines|
  {
    if lines != [] {
      assert lines == [lines[0]] + lines[1..];
      StepIsAnnounced(all, lines[0], hunk, added);
      var (next, more) := AddedStep(lines[0], hunk, added).value;
      WalkIsAnnounced(all, lines[1..], next, more);
    }
  }

  /** Whatever the bytes are: every added line is one that a hunk header announces. */
  lemma AddedLinesAreAnnounced(diff: Bytes)
    requires AddedFrom(Split(diff, NEWLINE), None, {}).Ok?
    ensures forall n :: n in AddedFrom(Split(diff, NEWLINE), None, {}).value ==> Announced(Split(diff, NEWLINE), n)
  {
    WalkIsAnnounced(Split(diff, NEWLINE), Split(diff, NEWLINE), None, {});
  }
}
