/** Walking a unified diff: `parse_added_lines` and `parse_changed_ranges` in
    `collect-diff-context-cli/src/review_scope.rs`. */
module HunkWalk {
  import opened ByteStrings
  import opened HunkHeaders
  import Utf8

  datatype HunkCursor = HunkCursor(nextNewLine: nat, remainingOld: nat, remainingNew: nat)

  datatype ChangedRange = ChangedRange(startLine: nat, endLine: nat, deletionAnchor: bool)

  // ---------------------------------------------------------------- the two walks

  /** Whether one more line number still fits `u32`. */
  function Advance(c: HunkCursor): Result<HunkCursor, ScopeError> {
    if c.nextNewLine + 1 > U32_MAX then Err(LineOverflow) else Ok(c.(nextNewLine := c.nextNewLine + 1))
  }

  function FirstByte(line: Bytes): Option<byte> {
    if line == [] then None else Some(line[0])
  }

  function KeepOpen(c: HunkCursor): Option<HunkCursor> {
    if c.remainingOld != 0 || c.remainingNew != 0 then Some(c) else None
  }

  /** One line inside a hunk. */
  function BodyStep(line: Bytes, c: HunkCursor, added: set<nat>): Result<(Option<HunkCursor>, set<nat>), ScopeError> {
    if FirstByte(line) == Some(PLUS) && c.remainingNew > 0 then
      match Advance(c)
      case Err(error) => Err(error)
      case Ok(next) => Ok((KeepOpen(next.(remainingNew := c.remainingNew - 1)), added + {c.nextNewLine}))
    else if FirstByte(line) == Some(MINUS) && c.remainingOld > 0 then
      Ok((KeepOpen(c.(remainingOld := c.remainingOld - 1)), added))
    else if FirstByte(line) == Some(SPACE) && c.remainingOld > 0 && c.remainingNew > 0 then
      match Advance(c)
      case Err(error) => Err(error)
      case Ok(next) =>
        Ok((KeepOpen(next.(remainingOld := c.remainingOld - 1, remainingNew := c.remainingNew - 1)), added))
    else Ok((KeepOpen(c), added))
  }

  function AddedStep(line: Bytes, hunk: Option<HunkCursor>, added: set<nat>)
    : Result<(Option<HunkCursor>, set<nat>), ScopeError>
  {
    if HUNK_MARK <= line then
      match ParseHunkRanges(line)
      case Err(error) => Err(error)
      case Ok(r) => Ok((Some(HunkCursor(r.newStart, r.oldCount, r.newCount)), added))
    else
      match hunk
      case None => Ok((None, added))
      case Some(c) => BodyStep(line, c, added)
  }

  function AddedFrom(lines: seq<Bytes>, hunk: Option<HunkCursor>, added: set<nat>): Result<set<nat>, ScopeError> {
    if lines == [] then Ok(added)
    else
      match AddedStep(lines[0], hunk, added)
      case Err(error) => Err(error)
      case Ok((next, more)) => AddedFrom(lines[1..], next, more)
  }

  method ParseAddedLines(diff: Bytes) returns (r: Result<set<nat>, ScopeError>)
    ensures r == AddedFrom(Split(diff, NEWLINE), None, {})
  {
    var added: set<nat> := {};
    var hunk: Option<HunkCursor> := None;
    var lines := Split(diff, NEWLINE);
    assert lines[0..] == lines;
    for n := 0 to |lines|
      invariant AddedFrom(lines, None, {}) == AddedFrom(lines[n..], hunk, added)
    {
      var line := lines[n];
      assert lines[n..][0] == line && lines[n..][1..] == lines[n + 1..];
      if HUNK_MARK <= line {
        var header := ParseHunkRanges(line);
        if header.Err? {
          return Err(header.error);
        }
        hunk := Some(HunkCursor(header.value.newStart, header.value.oldCount, header.value.newCount));
        continue;
      }
      if hunk.None? {
        continue;
      }
      var step := BodyStep(line, hunk.value, added);
      if step.Err? {
        return Err(step.error);
      }
      hunk, added := step.value.0, step.value.1;
    }
    r := Ok(added);
  }

  /** The range that one hunk header announces. */
  function RangeOf(r: HunkRanges): Result<ChangedRange, ScopeError> {
    if r.newCount == 0 then
      var anchor := if r.newStart > 1 then r.newStart else 1;
      Ok(ChangedRange(anchor, anchor, true))
    else if r.newStart + (r.newCount - 1) > U32_MAX then Err(LineOverflow)
    else Ok(ChangedRange(r.newStart, r.newStart + (r.newCount - 1), false))
  }

  function RangesFrom(lines: seq<Bytes>): Result<seq<ChangedRange>, ScopeError> {
    if lines == [] then Ok([])
    else if !(HUNK_MARK <= lines[0]) then RangesFrom(lines[1..])
    else
      match ParseHunkRanges(lines[0])
      case Err(error) => Err(error)
      case Ok(header) =>
        match RangeOf(header)
        case Err(error) => Err(error)
        case Ok(range) =>
          match RangesFrom(lines[1..])
          case Err(error) => Err(error)
          case Ok(rest) => Ok([range] + rest)
  }

  function Prepend(ranges: seq<ChangedRange>, rest: Result<seq<ChangedRange>, ScopeError>)
    : Result<seq<ChangedRange>, ScopeError>
  {
    match rest
    case Err(error) => Err(error)
    case Ok(more) => Ok(ranges + more)
  }

  method ParseChangedRanges(diff: Bytes) returns (r: Result<seq<ChangedRange>, ScopeError>)
    ensures r == RangesFrom(Split(diff, NEWLINE))
  {
    var ranges: seq<ChangedRange> := [];
    var lines := Split(diff, NEWLINE);
    assert lines[0..] == lines;
    ghost var all := RangesFrom(lines);
    assert all.Ok? ==> [] + all.value == all.value;
    for n := 0 to |lines|
      invariant all == Prepend(ranges, RangesFrom(lines[n..]))
    {
      var line := lines[n];
      assert lines[n..][0] == line && lines[n..][1..] == lines[n + 1..];
      if !(HUNK_MARK <= line) {
        continue;
      }
      var header := ParseHunkRanges(line);
      if header.Err? {
        return Err(header.error);
      }
      var range := RangeOf(header.value);
      if range.Err? {
        return Err(range.error);
      }
      ghost var rest := RangesFrom(lines[n + 1..]);
      assert rest.Ok? ==> ranges + ([range.value] + rest.value) == (ranges + [range.value]) + rest.value;
      ranges := ranges + [range.value];
    }
    assert ranges + [] == ranges;
    r := Ok(ranges);
  }

  // ---------------------------------------------------------------- rendered diffs

  /** A marker is the line that says a file does not end in a newline. */
  datatype BodyLine = Context(text: Bytes) | Insert(text: Bytes) | Delete(text: Bytes) | Marker(text: Bytes)

  datatype Hunk = Hunk(oldStart: nat, newStart: nat, heading: Bytes, body: seq<BodyLine>)

  /** Any other line is a file header or the like. */
  datatype Piece = Other(line: Bytes) | Edit(hunk: Hunk)

  function LineOf(l: BodyLine): Bytes {
    match l
    case Context(text) => [SPACE] + text
    case Insert(text) => [PLUS] + text
    case Delete(text) => [MINUS] + text
    case Marker(text) => [BACKSLASH] + text
  }

  function BodyLines(body: seq<BodyLine>): seq<Bytes> {
    if body == [] then [] else [LineOf(body[0])] + BodyLines(body[1..])
  }

  function OldCount(body: seq<BodyLine>): nat {
    if body == [] then 0
    else (if body[0].Context? || body[0].Delete? then 1 else 0) + OldCount(body[1..])
  }

  function NewCount(body: seq<BodyLine>): nat {
    if body == [] then 0
    else (if body[0].Context? || body[0].Insert? then 1 else 0) + NewCount(body[1..])
  }

  function RangesOf(h: Hunk): HunkRanges {
    HunkRanges(h.oldStart, OldCount(h.body), h.newStart, NewCount(h.body))
  }

  function LinesOf(diff: seq<Piece>): seq<Bytes> {
    if diff == [] then []
    else
      (match diff[0]
       case Other(line) => [line]
       case Edit(h) => [HeaderLine(RangesOf(h), h.heading)] + BodyLines(h.body))
      + LinesOf(diff[1..])
  }

  function Unlines(lines: seq<Bytes>): Bytes {
    if lines == [] then [] else lines[0] + [NEWLINE] + Unlines(lines[1..])
  }

  function Render(diff: seq<Piece>): Bytes {
    Unlines(LinesOf(diff))
  }

  /** No line contains a newline, and no line outside a hunk looks like a hunk header. */
  ghost predicate WellFormed(diff: seq<Piece>) {
    && (forall line :: line in LinesOf(diff) ==> NEWLINE !in line)
    && (forall p :: p in diff && p.Other? ==> !(HUNK_MARK <= p.line))
  }

  lemma {:induction false} SplitUndoesUnlines(lines: seq<Bytes>)
    requires forall line :: line in lines ==> NEWLINE !in line
    ensures Split(Unlines(lines), NEWLINE) == lines + [[]]
  {
    if lines != [] {
      var line, tail := lines[0], lines[1..];
      assert line in lines;
      forall other | other in tail ensures NEWLINE !in other {
        assert other in lines;
      }
      SplitPiece(line, NEWLINE, Unlines(tail));
      SplitUndoesUnlines(tail);
      assert [line] + (tail + [[]]) == lines + [[]];
    }
  }

  // ---------------------------------------------------------------- added lines of a rendered diff

  /** The new-file numbers of the inserted lines, when the first new line has number `n`. */
  function InsertedFrom(body: seq<BodyLine>, n: nat): set<nat> {
    if body == [] then {}
    else
      match body[0]
      case Insert(_) => {n} + InsertedFrom(body[1..], n + 1)
      case Context(_) => InsertedFrom(body[1..], n + 1)
      case _ => InsertedFrom(body[1..], n)
  }

  /** What makes a hunk unreadable for the added-line walk: a heading that is not UTF-8, a number that
      does not fit, or a line number after its last line that does not. */
  function AddedError(h: Hunk): Option<ScopeError> {
    if HeaderResult(h).Err? then Some(HeaderResult(h).error)
    else if h.newStart + NewCount(h.body) > U32_MAX then Some(LineOverflow)
    else None
  }

  function HeaderResult(h: Hunk): Result<HunkRanges, ScopeError> {
    if Utf8.Valid(h.heading) && NumbersFit(RangesOf(h)) then Ok(RangesOf(h)) else Err(InvalidHeader)
  }

  /** The inserted lines of a whole diff, or the error of its first unreadable hunk. */
  function InsertedLines(diff: seq<Piece>, added: set<nat>): Result<set<nat>, ScopeError> {
    if diff == [] then Ok(added)
    else
      match diff[0]
      case Other(_) => InsertedLines(diff[1..], added)
      case Edit(h) =>
        match AddedError(h)
        case Some(error) => Err(error)
        case None => InsertedLines(diff[1..], added + InsertedFrom(h.body, h.newStart))
  }

  /** A hunk with nothing left to read is as good as closed. */
  lemma Exhausted(lines: seq<Bytes>, c: HunkCursor, added: set<nat>)
    requires c.remainingOld == 0 && c.remainingNew == 0
    ensures AddedFrom(lines, Some(c), added) == AddedFrom(lines, None, added)
  {
  }

  lemma Reopen(lines: seq<Bytes>, c: HunkCursor, added: set<nat>)
    ensures AddedFrom(lines, KeepOpen(c), added) == AddedFrom(lines, Some(c), added)
  {
    if KeepOpen(c).None? {
      Exhausted(lines, c, added);
    }
  }

  /** The cursor after one body line. */
  function After(c: HunkCursor, l: BodyLine): HunkCursor
    requires l.Context? || l.Delete? ==> c.remainingOld > 0
    requires l.Context? || l.Insert? ==> c.remainingNew > 0
  {
    HunkCursor(c.nextNewLine + if l.Context? || l.Insert? then 1 else 0,
               c.remainingOld - if l.Context? || l.Delete? then 1 else 0,
               c.remainingNew - if l.Context? || l.Insert? then 1 else 0)
  }

  lemma NotAHeader(line: Bytes)
    requires line != [] && line[0] != AT
    ensures !(HUNK_MARK <= line)
  {
    assert HUNK_MARK[0] == AT;
  }

  lemma StepOfBodyLine(l: BodyLine, c: HunkCursor, added: set<nat>)
    requires l.Context? || l.Delete? ==> c.remainingOld > 0
    requires l.Context? || l.Insert? ==> c.remainingNew > 0
    requires c.nextNewLine <= U32_MAX
    ensures BodyStep(LineOf(l), c, added)
         == if After(c, l).nextNewLine > U32_MAX then Err(LineOverflow)
            else Ok((KeepOpen(After(c, l)), if l.Insert? then added + {c.nextNewLine} else added))
  {
  }

  lemma OneBodyLine(l: BodyLine, c: HunkCursor, added: set<nat>, rest: seq<Bytes>)
    requires l.Context? || l.Delete? ==> c.remainingOld > 0
    requires l.Context? || l.Insert? ==> c.remainingNew > 0
    requires c.nextNewLine <= U32_MAX
    ensures AddedFrom([LineOf(l)] + rest, Some(c), added)
         == if After(c, l).nextNewLine > U32_MAX then Err(LineOverflow)
            else AddedFrom(rest, Some(After(c, l)), if l.Insert? then added + {c.nextNewLine} else added)
  {
    var line := LineOf(l);
    NotAHeader(line);
    StepOfBodyLine(l, c, added);
    var more := if l.Insert? then added + {c.nextNewLine} else added;
    assert ([line] + rest)[1..] == rest;
    Reopen(rest, After(c, l), more);
  }

  lemma {:induction false} WalkBody(body: seq<BodyLine>, c: HunkCursor, added: set<nat>, rest: seq<Bytes>)
    requires c.remainingOld == OldCount(body) && c.remainingNew == NewCount(body) && c.nextNewLine <= U32_MAX
    ensures AddedFrom(BodyLines(body) + rest, Some(c), added)
         == if c.nextNewLine + NewCount(body) > U32_MAX then Err(LineOverflow)
            else AddedFrom(rest, None, added + InsertedFrom(body, c.nextNewLine))
    decreases |body|
  {
    if body == [] {
      assert BodyLines(body) + rest == rest;
      assert added + {} == added;
      Exhausted(rest, c, added);
    } else {
      var l, tail := body[0], body[1..];
      var more := if l.Insert? then added + {c.nextNewLine} else added;
      assert BodyLines(body) + rest == [LineOf(l)] + (BodyLines(tail) + rest);
      OneBodyLine(l, c, added, BodyLines(tail) + rest);
      if After(c, l).nextNewLine <= U32_MAX {
        WalkBody(tail, After(c, l), more, rest);
        assert more + InsertedFrom(tail, After(c, l).nextNewLine) == added + InsertedFrom(body, c.nextNewLine);
      }
    }
  }

  /** `read` is what a header says. */
  lemma HeaderStep(header: Bytes, read: Result<HunkRanges, ScopeError>, added: set<nat>, rest: seq<Bytes>)
    requires HUNK_MARK <= header && ParseHunkRanges(header) == read
    ensures AddedFrom([header] + rest, None, added)
         == if read.Err? then Err(read.error)
            else AddedFrom(rest, Some(HunkCursor(read.value.newStart, read.value.oldCount, read.value.newCount)), added)
  {
    assert ([header] + rest)[1..] == rest;
  }

  lemma WalkHunk(h: Hunk, header: Bytes, added: set<nat>, rest: seq<Bytes>)
    requires HUNK_MARK <= header && ParseHunkRanges(header) == HeaderResult(h)
    ensures AddedFrom([header] + (BodyLines(h.body) + rest), None, added)
         == match AddedError(h)
            case Some(error) => Err(error)
            case None => AddedFrom(rest, None, added + InsertedFrom(h.body, h.newStart))
  {
    HeaderStep(header, HeaderResult(h), added, BodyLines(h.body) + rest);
    if HeaderResult(h).Ok? {
      WalkBody(h.body, HunkCursor(h.newStart, OldCount(h.body), NewCount(h.body)), added, rest);
    }
  }

  lemma Regrouped(first: Bytes, body: seq<Bytes>, rest: seq<Bytes>)
    ensures [first] + body + rest + [[]] == [first] + (body + (rest + [[]]))
  {
  }

  lemma {:induction false} WalkDiff(diff: seq<Piece>, added: set<nat>)
    requires forall p :: p in diff && p.Other? ==> !(HUNK_MARK <= p.line)
    ensures AddedFrom(LinesOf(diff) + [[]], None, added) == InsertedLines(diff, added)
    decreases |diff|
  {
    if diff == [] {
      var last: seq<Bytes> := [[]];
      assert LinesOf(diff) + [[]] == last && last[1..] == [];
    } else {
      var p, tail := diff[0], diff[1..];
      assert p in diff;
      var rest := LinesOf(tail) + [[]];
      match p
      case Other(line) =>
        assert LinesOf(diff) + [[]] == [line] + rest;
        assert ([line] + rest)[1..] == rest;
        WalkDiff(tail, added);
      case Edit(h) =>
        var header := HeaderLine(RangesOf(h), h.heading);
        Regrouped(header, BodyLines(h.body), LinesOf(tail));
        HeaderReadsBack(RangesOf(h), h.heading);
        WalkHunk(h, header, added, rest);
        WalkDiff(tail, added + InsertedFrom(h.body, h.newStart));
    }
  }

  /** For every rendered diff, with any amount of context, the added-line walk returns exactly the
      new-file numbers of the inserted lines, whatever those lines look like, or the error of the
      first hunk that cannot be read. */
  lemma AddedLinesExact(diff: seq<Piece>)
    requires WellFormed(diff)
    ensures AddedFrom(Split(Render(diff), NEWLINE), None, {}) == InsertedLines(diff, {})
  {
    SplitUndoesUnlines(LinesOf(diff));
    WalkDiff(diff, {});
  }

  // ---------------------------------------------------------------- changed ranges of a rendered diff

  function RangesExpected(diff: seq<Piece>): Result<seq<ChangedRange>, ScopeError> {
    if diff == [] then Ok([])
    else
      match diff[0]
      case Other(_) => RangesExpected(diff[1..])
      case Edit(h) =>
        RangesAfter(HeaderResult(h), RangesExpected(diff[1..]))
  }

  function RangesAfter(read: Result<HunkRanges, ScopeError>, rest: Result<seq<ChangedRange>, ScopeError>)
    : Result<seq<ChangedRange>, ScopeError>
  {
    if read.Err? then Err(read.error)
    else
      match RangeOf(read.value)
      case Err(error) => Err(error)
      case Ok(range) => Prepend([range], rest)
  }

  lemma RangeStep(header: Bytes, read: Result<HunkRanges, ScopeError>, rest: seq<Bytes>)
    requires HUNK_MARK <= header && ParseHunkRanges(header) == read
    ensures RangesFrom([header] + rest) == RangesAfter(read, RangesFrom(rest))
  {
    assert ([header] + rest)[1..] == rest;
  }

  lemma {:induction false} SkipBody(body: seq<BodyLine>, rest: seq<Bytes>)
    ensures RangesFrom(BodyLines(body) + rest) == RangesFrom(rest)
    decreases |body|
  {
    if body == [] {
      assert BodyLines(body) + rest == rest;
    } else {
      var line := LineOf(body[0]);
      NotAHeader(line);
      assert BodyLines(body) + rest == [line] + (BodyLines(body[1..]) + rest);
      SkipBody(body[1..], rest);
    }
  }

  lemma RangeHunk(h: Hunk, header: Bytes, rest: seq<Bytes>)
    requires HUNK_MARK <= header && ParseHunkRanges(header) == HeaderResult(h)
    ensures RangesFrom([header] + (BodyLines(h.body) + rest)) == RangesAfter(HeaderResult(h), RangesFrom(rest))
  {
    RangeStep(header, HeaderResult(h), BodyLines(h.body) + rest);
    SkipBody(h.body, rest);
  }

  lemma {:induction false} WalkRanges(diff: seq<Piece>)
    requires forall p :: p in diff && p.Other? ==> !(HUNK_MARK <= p.line)
    ensures RangesFrom(LinesOf(diff) + [[]]) == RangesExpected(diff)
    decreases |diff|
  {
    if diff == [] {
      var last: seq<Bytes> := [[]];
      assert LinesOf(diff) + [[]] == last && last[1..] == [];
    } else {
      var p, tail := diff[0], diff[1..];
      assert p in diff;
      var rest := LinesOf(tail) + [[]];
      WalkRanges(tail);
      match p
      case Other(line) =>
        assert LinesOf(diff) + [[]] == [line] + rest;
        assert ([line] + rest)[1..] == rest;
      case Edit(h) =>
        var header := HeaderLine(RangesOf(h), h.heading);
        Regrouped(header, BodyLines(h.body), LinesOf(tail));
        HeaderReadsBack(RangesOf(h), h.heading);
        RangeHunk(h, header, rest);
    }
  }

  lemma ChangedRangesExact(diff: seq<Piece>)
    requires WellFormed(diff)
    ensures RangesFrom(Split(Render(diff), NEWLINE)) == RangesExpected(diff)
  {
    SplitUndoesUnlines(LinesOf(diff));
    WalkRanges(diff);
  }

  // ---------------------------------------------------------------- the two walks agree

  ghost predicate ZeroContext(diff: seq<Piece>) {
    forall p :: p in diff && p.Edit? ==> forall l :: l in p.hunk.body ==> !l.Context?
  }

  ghost predicate InRange(ranges: seq<ChangedRange>, n: nat) {
    exists r :: r in ranges && !r.deletionAnchor && r.startLine <= n <= r.endLine
  }

  lemma {:induction false} InsertedBlock(body: seq<BodyLine>, n: nat, k: nat)
    requires forall l :: l in body ==> !l.Context?
    ensures k in InsertedFrom(body, n) <==> n <= k < n + NewCount(body)
    decreases |body|
  {
    if body != [] {
      assert body == [body[0]] + body[1..];
      assert body[0] in body;
      InsertedBlock(body[1..], if body[0].Insert? then n + 1 else n, k);
    }
  }

  lemma RangesCons(range: ChangedRange, rest: seq<ChangedRange>, n: nat)
    ensures InRange([range] + rest, n) <==>
            (!range.deletionAnchor && range.startLine <= n <= range.endLine) || InRange(rest, n)
  {
    var all := [range] + rest;
    assert all[0] == range;
    if r :| r in rest && !r.deletionAnchor && r.startLine <= n <= r.endLine {
      assert r in all;
    }
  }

  /** On zero-context diffs that both walks can read, the ranges that are not anchors cover exactly
      the added lines. */
  lemma {:induction false} WalksAgree(diff: seq<Piece>, added: set<nat>, n: nat)
    requires ZeroContext(diff) && InsertedLines(diff, added).Ok?
    ensures RangesExpected(diff).Ok?
    ensures n in InsertedLines(diff, added).value <==> n in added || InRange(RangesExpected(diff).value, n)
    decreases |diff|
  {
    if diff != [] {
      assert diff == [diff[0]] + diff[1..];
      assert diff[0] in diff;
      match diff[0]
      case Other(_) => WalksAgree(diff[1..], added, n);
      case Edit(h) =>
        WalksAgree(diff[1..], added + InsertedFrom(h.body, h.newStart), n);
        InsertedBlock(h.body, h.newStart, n);
        RangesCons(RangeOf(RangesOf(h)).value, RangesExpected(diff[1..]).value, n);
    }
  }

  function Edits(diff: seq<Piece>): seq<Hunk> {
    if diff == [] then []
    else if diff[0].Edit? then [diff[0].hunk] + Edits(diff[1..])
    else Edits(diff[1..])
  }

  /** A hunk header that can be read: its heading is UTF-8, its starts fit 32 bits and its counts 64. */
  ghost predicate HeaderFits(h: Hunk) {
    && Utf8.Valid(h.heading) && h.oldStart <= 4294967295 && h.newStart <= 4294967295
    && OldCount(h.body) <= 18446744073709551615 && NewCount(h.body) <= 18446744073709551615
  }

  /** The ranges can be read if and only if every header can and every last line fits 32 bits. */
  lemma {:induction false} RangesReadExactly(diff: seq<Piece>)
    ensures RangesExpected(diff).Ok? <==>
            forall h :: h in Edits(diff) ==>
              HeaderFits(h) && (NewCount(h.body) == 0 || h.newStart + NewCount(h.body) - 1 <= 4294967295)
  {
    if diff != [] {
      RangesReadExactly(diff[1..]);
      if diff[0].Edit? {
        assert Edits(diff) == [diff[0].hunk] + Edits(diff[1..]);
      }
    }
  }

  /** The added lines can be read if and only if every header can and the line after every hunk fits 32 bits. */
  lemma {:induction false} InsertedReadExactly(diff: seq<Piece>, added: set<nat>)
    ensures InsertedLines(diff, added).Ok? <==>
            forall h :: h in Edits(diff) ==> HeaderFits(h) && h.newStart + NewCount(h.body) <= 4294967295
    decreases |diff|
  {
    if diff != [] {
      match diff[0]
      case Other(_) => InsertedReadExactly(diff[1..], added);
      case Edit(h) =>
        InsertedReadExactly(diff[1..], added + InsertedFrom(h.body, h.newStart));
        assert Edits(diff) == [h] + Edits(diff[1..]);
        assert h in Edits(diff);
    }
  }

  /** The range of a hunk: an anchor at its new start, or at line 1, when it inserts nothing, and otherwise
      the block of its new lines. */
  ghost predicate RangeIsOf(range: ChangedRange, h: Hunk) {
    && range.deletionAnchor == (NewCount(h.body) == 0)
    && range.startLine == (if NewCount(h.body) == 0 && h.newStart == 0 then 1 else h.newStart)
    && range.endLine + 1 == range.startLine + (if NewCount(h.body) == 0 then 1 else NewCount(h.body))
  }

  /** Each hunk gives one range, in order. */
  lemma {:induction false} OneRangePerHunk(diff: seq<Piece>)
    requires RangesExpected(diff).Ok?
    ensures var ranges, hunks := RangesExpected(diff).value, Edits(diff);
            && |ranges| == |hunks|
            && forall i :: 0 <= i < |hunks| ==> RangeIsOf(ranges[i], hunks[i])
    decreases |diff|
  {
    if diff != [] {
      OneRangePerHunk(diff[1..]);
    }
  }

  /** The range walk reads every diff that the added-line walk reads; it reads one more only when
      some hunk ends exactly at the last 32-bit line number. */
  lemma {:induction false} WalksDifferOnlyAtTheLastLine(diff: seq<Piece>, added: set<nat>)
    ensures InsertedLines(diff, added).Ok? <==>
            RangesExpected(diff).Ok? && forall h :: h in Edits(diff) ==> h.newStart + NewCount(h.body) != U32_MAX + 1
    decreases |diff|
  {
    if diff != [] {
      match diff[0]
      case Other(_) => WalksDifferOnlyAtTheLastLine(diff[1..], added);
      case Edit(h) =>
        WalksDifferOnlyAtTheLastLine(diff[1..], added + InsertedFrom(h.body, h.newStart));
        assert Edits(diff) == [h] + Edits(diff[1..]);
        assert h in Edits(diff);
    }
  }

  /** The same three statements about the bytes that the two walks are given. */
  lemma RenderedWalksAgree(diff: seq<Piece>, n: nat)
    requires WellFormed(diff) && ZeroContext(diff)
    ensures var lines := Split(Render(diff), NEWLINE);
            && (AddedFrom(lines, None, {}).Ok? <==>
                  RangesFrom(lines).Ok?
                  && forall h :: h in Edits(diff) ==> h.newStart + NewCount(h.body) != U32_MAX + 1)
            && (AddedFrom(lines, None, {}).Ok? ==>
                  (n in AddedFrom(lines, None, {}).value <==> InRange(RangesFrom(lines).value, n)))
            && (RangesFrom(lines).Ok? ==>
                  && |RangesFrom(lines).value| == |Edits(diff)|
                  && forall i :: 0 <= i < |Edits(diff)| ==> RangeIsOf(RangesFrom(lines).value[i], Edits(diff)[i]))
  {
    AddedLinesExact(diff);
    ChangedRangesExact(diff);
    WalksDifferOnlyAtTheLastLine(diff, {});
    if InsertedLines(diff, {}).Ok? {
      WalksAgree(diff, {}, n);
    }
    if RangesExpected(diff).Ok? {
      OneRangePerHunk(diff);
    }
  }
}
