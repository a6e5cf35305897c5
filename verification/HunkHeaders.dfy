/** Reading a hunk header: `parse_hunk_ranges` and `parse_hunk_range` in
    `collect-diff-context-cli/src/review_scope.rs`, and the headers of the "Diff -u or -U Output
    Format" of the `diff` utility in POSIX.1-2017. */
module HunkHeaders {
  import opened ByteStrings
  import opened Numerals
  import Utf8

  const COMMA: byte := 44
  const MINUS: byte := 45
  const AT: byte := 64

  /** "@@ -" */
  const HUNK_MARK: Bytes := [64, 64, 32, 45]

  datatype ScopeError = InvalidHeader | LineOverflow

  // ---------------------------------------------------------------- words

  /** The Unicode property White_Space. */
  predicate IsWhitespace(c: int) {
    0x09 <= c <= 0x0D || c == 0x20 || c == 0x85 || c == 0xA0 || c == 0x1680 || 0x2000 <= c <= 0x200A
    || c == 0x2028 || c == 0x2029 || c == 0x202F || c == 0x205F || c == 0x3000
  }

  /** The length of the leading run of non-whitespace characters. */
  function WordLength(s: seq<int>): (n: nat)
    ensures n <= |s|
  {
    if s == [] || IsWhitespace(s[0]) then 0 else 1 + WordLength(s[1..])
  }

  /** `split_whitespace`. */
  function Words(s: seq<int>): seq<seq<int>>
    decreases |s|
  {
    if s == [] then []
    else if IsWhitespace(s[0]) then Words(s[1..])
    else [s[..WordLength(s)]] + Words(s[WordLength(s)..])
  }

  predicate IsWord(s: seq<int>) {
    s != [] && forall i :: 0 <= i < |s| ==> !IsWhitespace(s[i])
  }

  lemma {:induction false} WordLengthIs(word: seq<int>, rest: seq<int>)
    requires forall i :: 0 <= i < |word| ==> !IsWhitespace(word[i])
    requires rest != [] && IsWhitespace(rest[0])
    ensures WordLength(word + rest) == |word|
  {
    if word == [] {
      assert word + rest == rest;
    } else {
      WordLengthIs(word[1..], rest);
      assert (word + rest)[1..] == word[1..] + rest;
    }
  }

  lemma FirstWord(word: seq<int>, rest: seq<int>)
    requires IsWord(word)
    ensures Words(word + [0x20] + rest) == [word] + Words(rest)
  {
    var s, tail := word + [0x20] + rest, [0x20] + rest;
    assert s == word + tail;
    WordLengthIs(word, tail);
    assert s[..|word|] == word && s[|word|..] == tail;
    assert tail[1..] == rest;
  }

  // ---------------------------------------------------------------- ranges

  function FirstComma(s: seq<int>): (i: nat)
    ensures i <= |s|
  {
    if s == [] || s[0] == COMMA as int then 0 else 1 + FirstComma(s[1..])
  }

  /** A start and a count; the count is 1 when it is not written. */
  function ParseHunkRange(value: seq<int>): Result<(nat, nat), ScopeError> {
    var comma := FirstComma(value);
    var startText := value[..comma];
    var countText := if comma < |value| then value[comma + 1..] else [DIGIT_ZERO as int + 1];
    match (ParseUnsigned(startText, U32_MAX), ParseUnsigned(countText, U64_MAX))
    case (Some(start), Some(count)) => Ok((start, count))
    case _ => Err(InvalidHeader)
  }

  datatype HunkRanges = HunkRanges(oldStart: nat, oldCount: nat, newStart: nat, newCount: nat)

  function ParseHunkRanges(line: Bytes): Result<HunkRanges, ScopeError> {
    if !Utf8.Valid(line) then Err(InvalidHeader)
    else
      var fields := Words(Utf8.Chars(line));
      if |fields| < 3 || fields[0] != [AT as int, AT as int] then Err(InvalidHeader)
      else if fields[1] == [] || fields[1][0] != MINUS as int then Err(InvalidHeader)
      else if fields[2] == [] || fields[2][0] != PLUS as int then Err(InvalidHeader)
      else
        match (ParseHunkRange(fields[1][1..]), ParseHunkRange(fields[2][1..]))
        case (Ok(before), Ok(after)) => Ok(HunkRanges(before.0, before.1, after.0, after.1))
        case _ => Err(InvalidHeader)
  }

  // ---------------------------------------------------------------- rendering

  /** A range as `diff` writes it: the count is left out when it is 1. */
  function RangeText(start: nat, count: nat): Bytes {
    if count == 1 then Decimal(start) else Decimal(start) + [COMMA] + Decimal(count)
  }

  /** "@@ -old +new @@" and whatever follows on the line. */
  function HeaderLine(r: HunkRanges, heading: Bytes): Bytes {
    [AT, AT, SPACE, MINUS] + RangeText(r.oldStart, r.oldCount) + [SPACE, PLUS] + RangeText(r.newStart, r.newCount)
    + [SPACE, AT, AT] + heading
  }

  /** The four numbers fit the types they are read into. */
  predicate NumbersFit(r: HunkRanges) {
    r.oldStart <= U32_MAX && r.oldCount <= U64_MAX && r.newStart <= U32_MAX && r.newCount <= U64_MAX
  }

  lemma {:induction false} CommaAfterDigits(digits: seq<int>, rest: seq<int>)
    requires AllDigits(digits) && (rest == [] || rest[0] == COMMA as int)
    ensures FirstComma(digits + rest) == |digits|
  {
    if digits == [] {
      assert digits + rest == rest;
    } else {
      CommaAfterDigits(digits[1..], rest);
      assert (digits + rest)[1..] == digits[1..] + rest;
    }
  }

  lemma RangeReadsBack(start: nat, count: nat)
    ensures ParseHunkRange(RangeText(start, count))
         == if start <= U32_MAX && count <= U64_MAX then Ok((start, count)) else Err(InvalidHeader)
  {
    ParseUndoesDecimal(start, U32_MAX);
    ParseUndoesDecimal(count, U64_MAX);
    var digits: seq<int>, value: seq<int> := Decimal(start), RangeText(start, count);
    if count == 1 {
      CommaAfterDigits(digits, []);
      assert value == digits + [] && value[..|digits|] == digits;
      assert Decimal(1) == [DIGIT_ZERO + 1];
    } else {
      CommaAfterDigits(digits, [COMMA as int] + Decimal(count));
      assert value == digits + ([COMMA as int] + Decimal(count));
      assert value[..|digits|] == digits && value[|digits| + 1..] == Decimal(count);
    }
  }

  lemma RangeIsPlain(start: nat, count: nat)
    ensures forall i :: 0 <= i < |RangeText(start, count)| ==>
      44 <= RangeText(start, count)[i] < 58 && !IsWhitespace(RangeText(start, count)[i])
  {
  }

  function Spaced(a: seq<int>, b: seq<int>, c: seq<int>, rest: seq<int>): seq<int> {
    a + [0x20] + (b + [0x20] + (c + [0x20] + rest))
  }

  lemma ThreeWords(a: seq<int>, b: seq<int>, c: seq<int>, rest: seq<int>)
    requires IsWord(a) && IsWord(b) && IsWord(c)
    ensures Words(Spaced(a, b, c, rest)) == [a, b, c] + Words(rest)
  {
    FirstWord(c, rest);
    FirstWord(b, c + [0x20] + rest);
    FirstWord(a, b + [0x20] + (c + [0x20] + rest));
  }

  lemma SpacedConcat(a: seq<int>, b: seq<int>, c: seq<int>, front: seq<int>, rest: seq<int>)
    ensures Spaced(a, b, c, front) + rest == Spaced(a, b, c, front + rest)
  {
  }

  function OldWord(r: HunkRanges): Bytes {
    [MINUS] + RangeText(r.oldStart, r.oldCount)
  }

  function NewWord(r: HunkRanges): Bytes {
    [PLUS] + RangeText(r.newStart, r.newCount)
  }

  lemma HeaderIsSpaced(r: HunkRanges, heading: Bytes)
    ensures HeaderLine(r, heading) == HeaderLine(r, []) + heading
    ensures HeaderLine(r, []) == Spaced([AT as int, AT as int], OldWord(r), NewWord(r), [AT as int, AT as int])
    ensures forall b :: b in HeaderLine(r, []) ==> b < 0x80
    ensures IsWord(OldWord(r)) && IsWord(NewWord(r))
  {
    RangeIsPlain(r.oldStart, r.oldCount);
    RangeIsPlain(r.newStart, r.newCount);
  }

  const MARKS: seq<int> := [AT as int, AT as int]

  lemma HeaderChars(r: HunkRanges, heading: Bytes)
    requires Utf8.Valid(heading)
    ensures Utf8.Valid(HeaderLine(r, heading))
    ensures Utf8.Chars(HeaderLine(r, heading)) == Spaced(MARKS, OldWord(r), NewWord(r), MARKS + Utf8.Chars(heading))
  {
    var front := HeaderLine(r, []);
    HeaderIsSpaced(r, heading);
    AsciiFront(front, heading);
    SpacedConcat(MARKS, OldWord(r), NewWord(r), MARKS, Utf8.Chars(heading));
  }

  lemma AsciiFront(front: Bytes, rest: Bytes)
    requires (forall b :: b in front ==> b < 0x80) && Utf8.Valid(rest)
    ensures Utf8.Valid(front) && Utf8.Valid(front + rest) && Utf8.Chars(front) == front
    ensures Utf8.Chars(front + rest) == Utf8.Chars(front) + Utf8.Chars(rest)
  {
    assert forall i :: 0 <= i < |front| ==> front[i] in front;
    Utf8.AsciiChars(front);
    Utf8.ValidConcat(front, rest);
  }

  lemma HeaderWords(r: HunkRanges, heading: Bytes)
    requires Utf8.Valid(heading)
    ensures Utf8.Valid(HeaderLine(r, heading))
    ensures Words(Utf8.Chars(HeaderLine(r, heading)))
         == [MARKS, OldWord(r), NewWord(r)] + Words(MARKS + Utf8.Chars(heading))
  {
    HeaderChars(r, heading);
    assert IsWord(OldWord(r)) && IsWord(NewWord(r)) by {
      HeaderIsSpaced(r, heading);
    }
    ThreeWords(MARKS, OldWord(r), NewWord(r), MARKS + Utf8.Chars(heading));
  }

  /** Reading a rendered header gives its numbers exactly when they fit and the heading is UTF-8. */
  lemma HeaderReadsBack(r: HunkRanges, heading: Bytes)
    ensures HUNK_MARK <= HeaderLine(r, heading)
    ensures ParseHunkRanges(HeaderLine(r, heading))
         == if Utf8.Valid(heading) && NumbersFit(r) then Ok(r) else Err(InvalidHeader)
  {
    var line := HeaderLine(r, heading);
    if Utf8.Valid(heading) {
      HeaderWords(r, heading);
      assert OldWord(r)[1..] == RangeText(r.oldStart, r.oldCount);
      assert NewWord(r)[1..] == RangeText(r.newStart, r.newCount);
      RangeReadsBack(r.oldStart, r.oldCount);
      RangeReadsBack(r.newStart, r.newCount);
    } else {
      HeadingDecides(r, heading);
    }
  }

  lemma HeadingDecides(r: HunkRanges, heading: Bytes)
    ensures Utf8.Valid(HeaderLine(r, heading)) <==> Utf8.Valid(heading)
  {
    HeaderIsSpaced(r, heading);
    RestDecides(HeaderLine(r, []), heading);
  }

  lemma RestDecides(front: Bytes, rest: Bytes)
    requires forall b :: b in front ==> b < 0x80
    ensures Utf8.Valid(front + rest) <==> Utf8.Valid(rest)
  {
    assert forall i :: 0 <= i < |front| ==> front[i] in front;
    Utf8.AsciiChars(front);
    Utf8.ValidConcat(front, rest);
  }
}
